/** Walking a file hierarchy: fts_open, fts_read and fts_build (gen/fts.c). */
module FtsWalk {
  import opened Options
  import opened FtsTree
  import opened FtsStack
  import opened FtsNodes
  import opened FtsShape

  /** The path of every name fits into a buffer. */
  predicate Fits(stack: seq<Frame>, e: nat, room: nat)
    requires e < |stack|
  {
    forall i :: 0 <= i < |stack[e].todo| ==> |PathOf(DirAt(stack, e), stack[e].todo[i], e)| < room
  }

  lemma {:induction false} JoinIs(dir: string, name: string, slashed: string)
    requires slashed == dir[..Kept(dir)] + "/"
    ensures Join(dir, name) == slashed + name && (CString(dir) && GoodName(name) ==> CString(Join(dir, name)))
  {
  }

  /** The paths are C strings, and all those to come fit into a buffer. */
  ghost predicate Roomy(stack: seq<Frame>, room: nat) {
    && (forall e :: 0 <= e < |stack| ==> CString(stack[e].here))
    && (forall e {:trigger Fits(stack, e, room)} :: 0 <= e < |stack| ==> Fits(stack, e, room))
  }

  /** The path of every entry fits into a buffer. */
  predicate AllFit(dir: string, names: seq<string>, room: nat) {
    forall i :: 0 <= i < |names| ==> |Join(dir, names[i])| < room
  }

  lemma {:induction false} FitMore(dir: string, names: seq<string>, name: string, room: nat, room': nat)
    requires AllFit(dir, names, room) && room <= room' && |Join(dir, name)| < room'
    ensures AllFit(dir, names + [name], room')
  {
  }

  lemma {:induction false} ShownStep(w: World, names: seq<string>, i: nat)
    requires i < |names|
    ensures w.Shown(names[i..]) == (if !w.seedot && IsDot(names[i]) then [] else [names[i]]) + w.Shown(names[i + 1..])
  {
    assert names[i..][1..] == names[i + 1..];
  }

  lemma {:induction false} StartEntries(w: World, dir: string, names: seq<string>, parent: FtsEnt, level: nat, free: set<Id>, room: nat)
    ensures Linked([], 0, level, parent) && AllWaiting(w, [], dir, [], free, level) && AllFit(dir, [], room)
    ensures w.Shown([]) == [] && First([]) == null
  {
  }

  lemma {:induction false} EntriesFit(w: World, l: seq<FtsEnt>, dir: string, names: seq<string>, free: set<Id>, level: nat, room: nat)
    requires AllWaiting(w, l, dir, names, free, level) && AllFit(dir, names, room)
    ensures |l| == |names| && (names != [] ==> Kept(dir) + 1 < room)
  {
    assert names != [] ==> |Join(dir, names[0])| < room;
  }

  lemma {:induction false} GoodNameAt(names: seq<string>, i: nat)
    requires GoodNames(names) && i < |names|
    ensures GoodName(names[i])
  {
  }

  lemma {:induction false} HoldsRoom(b: seq<char>, s: string)
    requires Holds(b, s)
    ensures |s| < |b|
  {
  }

  /** A path goes on behind the path of its directory, even without its last slash. */
  predicate GoesOn(dir: string, here: string) {
    dir <= here && |dir| <= Kept(here)
  }

  /** What the buffer holds when the last slash of a path may have been cut off. */
  lemma {:induction false} PrefixKept(dir: string, here: string, b: seq<char>)
    requires GoesOn(dir, here)
    requires Holds(b, here) || Holds(b, here[..Kept(here)]) || (Kept(here) <= |b| && b[..Kept(here)] == here[..Kept(here)])
    ensures |dir| <= |b| && b[..|dir|] == dir
  {
  }

  lemma {:induction false} TopGoesOn(w: World, stack: seq<Frame>, d: nat)
    requires Stacked(w, stack) && d < |stack|
    ensures GoesOn(DirAt(stack, d), stack[d].here)
  {
    if d > 0 {
      assert Continues(stack, d);
    }
  }

  /** There is room for the paths below, too. */
  lemma {:induction false} RoomyDown(w: World, stack: seq<Frame>, names: seq<string>, room: nat)
    requires stack != [] && names != [] && GoodNames(names) && Roomy(stack, room)
    requires var here := stack[|stack| - 1].here; here != "" && CString(here) && AllFit(here, names, room)
    ensures var stack' := GoneDown(w, stack, names);
      var d := |stack|;
      Roomy(stack', room) && stack'[d].here == Join(stack[d - 1].here, names[0]) && stack'[d].here != "" && |stack'[d].here| < room
  {
    var d, top, stack' := |stack|, stack[|stack| - 1], GoneDown(w, stack, names);
    ArriveIs(w, top.here, names, top.free - {top.id}, d);
    JoinIs(top.here, names[0], top.here[..Kept(top.here)] + "/");
    hide Arrive, Join;
    forall e | 0 <= e < |stack'|
      ensures CString(stack'[e].here) && Fits(stack', e, room)
    {
      if e < d {
        assert Fits(stack, e, room);
      }
    }
  }

  lemma {:induction false} RoomyMore(stack: seq<Frame>, room: nat, room': nat)
    requires Roomy(stack, room) && room <= room'
    ensures Roomy(stack, room')
  {
    forall e | 0 <= e < |stack|
      ensures Fits(stack, e, room')
    {
      assert Fits(stack, e, room);
    }
  }

  lemma {:induction false} ShownGood(w: World, names: seq<string>)
    requires GoodNames(names)
    ensures GoodNames(w.Shown(names))
  {
    if names != [] {
      ShownGood(w, names[1..]);
    }
  }

  lemma {:induction false} CStringHere(stack: seq<Frame>, room: nat, e: nat)
    requires Roomy(stack, room) && e < |stack|
    ensures CString(stack[e].here) && CString(stack[e].here[..Kept(stack[e].here)])
  {
  }

  lemma {:induction false} RoomyOn(w: World, stack: seq<Frame>, room: nat)
    requires stack != [] && stack[|stack| - 1].todo != [] && GoodNames(stack[|stack| - 1].todo) && Roomy(stack, room)
    ensures var d := |stack| - 1;
      var stack' := MovedOn(w, stack);
      && Roomy(stack', room) && stack'[d].here == (if d == 0 then stack[d].todo[0] else Join(DirAt(stack, d), stack[d].todo[0])) && stack'[d].here != ""
      && |stack'[d].here| < room && DirAt(stack', d) == DirAt(stack, d)
  {
    var d, stack' := |stack| - 1, MovedOn(w, stack);
    var dir := DirAt(stack, d);
    ArriveIs(w, dir, stack[d].todo, stack[d].free, d);
    JoinIs(dir, stack[d].todo[0], dir[..Kept(dir)] + "/");
    assert Fits(stack, d, room) && GoodName(stack[d].todo[0]);
    hide Arrive, Join;
    forall e | 0 <= e < |stack'|
      ensures CString(stack'[e].here) && Fits(stack', e, room)
    {
      assert Fits(stack, e, room);
      if e == d {
        assert forall i :: 0 <= i < |stack'[d].todo| ==> stack'[d].todo[i] == stack[d].todo[i + 1];
      }
    }
  }

  /** The buffer behind a slash begins with the path. */
  lemma {:induction false} Slashed(here: string, b: seq<char>)
    requires here != "" && Kept(here) < |b| && b[..Kept(here) + 1] == here[..Kept(here)] + "/"
    ensures |here| <= |b| && b[..|here|] == here
  {
    assert forall i :: 0 <= i < |here| ==> b[i] == b[..Kept(here) + 1][i] == here[i];
  }

  /** `FTS`, for walks with FTS_NOCHDIR, without instructions and without a comparison function. */
  class Fts {
    const w: World
    var cur: FtsEnt?
    var path: array<char>
    var stopped: bool
    var dev: nat
    ghost const root: FtsEnt  // the parent of the roots
    ghost var above: seq<FtsEnt>  // the entered directories above the current node
    ghost var ids: seq<Id>  // their identities
    ghost var rests: seq<seq<FtsEnt>>  // the nodes that follow on each level
    ghost var stack: seq<Frame>
    ghost var nodes: set<FtsEnt>

    /** The nodes, without what is in the buffer. */
    ghost predicate Structured()
      reads `cur, `above, `ids, `rests, `stack, `nodes, nodes
    {
      && cur != null && Shaped(w, root, cur, above, ids, rests, stack, nodes)
      && (if cur.info == INIT then above == [] && rests[0] != [] else Below(cur, above, root))
      && Current(cur, stack[|above|])
    }

    /** The buffer: it holds the path of the current directory, and there is room for all paths to come. */
    ghost predicate Buffered()
      requires Structured()
      reads `cur, `above, `ids, `rests, `stack, `nodes, nodes, `path, path
    {
      var d := |above|;
      && Roomy(stack, path.Length)
      && |stack[d].here| < path.Length && |DirAt(stack, d)| < path.Length
      && path[..|DirAt(stack, d)|] == DirAt(stack, d)
      && (cur.info == D ==> stack[d].here != "" && Holds(path[..], stack[d].here))
    }

    ghost predicate Valid()
      reads this, nodes, path
    {
      w.Valid() && (cur != null ==> Structured() && Buffered())
    }

    /** The events that are still to be seen. */
    ghost function Todo(): seq<Event>
      requires Valid()
      reads this, nodes, path
    {
      if cur == null || stopped then [] else Pending(w, stack, cur.info, dev)
    }

    constructor (w: World, path: array<char>, ghost root: FtsEnt)
      ensures this.w == w && this.path == path && this.root == root && cur == null && !stopped && nodes == {root}
    {
      this.w, this.path, this.root := w, path, root;
      cur, stopped, dev := null, false, 0;
      above, ids, rests, stack, nodes := [], [], [], [], {root};
    }

    lemma {:induction false} IsBelow(p: FtsEnt, chain: seq<FtsEnt>, root: FtsEnt)
      requires chain != [] && p.parent == chain[|chain| - 1]
      ensures Below(p, chain, root)
    {
    }

    lemma {:induction false} ChildWaits(p: FtsEnt, here: string, name: string, free: set<Id>, level: nat)
      requires level > 0 && p.name == name && !p.ownName && p.pathlen == |Join(here, name)|
      requires p.info == w.Classify(Join(here, name), name, free, false)
      requires p.info == D ==> !p.failed && w.StatOf(Join(here, name), false) == Dir(Id(p.dev, p.ino))
      ensures Waiting(w, p, here, name, free, level)
    {
    }

    /** A new node for an entry of the current directory, whose path `here` with a slash behind it is
        in the buffer, and the path of the entry. */
    method AllocChild(name: string, len: nat, ghost here: string, ghost pos: int) returns (p: FtsEnt, s: string)
      requires cur != null && CString(here) && GoodName(name) && cur.level >= 0
      requires len == Kept(here) + 1 <= path.Length && path[..len] == here[..Kept(here)] + "/"
      modifies this`path, path
      ensures fresh(p) && p.pos == pos && p.level == cur.level + 1 && p.parent == cur && p.link == null
      ensures p.name == name && !p.ownName && !p.failed && p.pathlen == |Join(here, name)| && s == Join(here, name)
      ensures (path == old(path) || fresh(path)) && path.Length >= old(path.Length) && |s| < path.Length
      ensures path[..len] == old(path[..len])
    {
      var maxlen := path.Length - len;
      p := new FtsEnt(name, false, pos);
      ghost var slashed := path[..len];
      if |name| >= maxlen {
        var larger := Palloc(path, |name| + len + 1);
        assert larger[..len] == larger[..path.Length][..len];
        path := larger;
      }
      hide *;
      p.level := cur.level + 1;
      p.pathlen := len + |name|;
      p.parent := cur;
      PutName(path, len, name, slashed);
      JoinIs(here, name, slashed);
      s := StringIn(path, Join(here, name));
      HoldsRoom(path[..], s);
    }

    /** `fts_alloc`, the path and `fts_stat` for one entry of the current directory. */
    method NewChild(name: string, len: nat, ghost here: string, ghost chain: seq<FtsEnt>, ghost cids: seq<Id>, ghost free: set<Id>, ghost pos: int)
      returns (p: FtsEnt)
      requires w.Valid() && cur != null && CString(here) && GoodName(name)
      requires len == Kept(here) + 1 <= path.Length && path[..len] == here[..Kept(here)] + "/"
      requires chain != [] && chain[|chain| - 1] == cur && Chained(chain, cids, root) && free == w.dirs - (set x | x in cids)
      modifies this`path, path
      ensures fresh(p) && p.pos == pos && p.level == |chain| && p.parent == cur && p.link == null
      ensures Waiting(w, p, here, name, free, |chain|)
      ensures (path == old(path) || fresh(path)) && path.Length >= old(path.Length) && |Join(here, name)| < path.Length
      ensures path[..len] == old(path[..len])
    {
      assert cur.level == |chain| - 1;
      hide *;
      var s;
      p, s := AllocChild(name, len, here, pos);
      IsBelow(p, chain, root);
      p.info := FtsStat(w, p, s, false, chain, cids, root, free);
      ChildWaits(p, here, name, free, |chain|);
    }

    /** The loop of `fts_build`: the list of the entries that are to be shown. */
    method ReadEntries(names: seq<string>, len: nat, ghost here: string, ghost chain: seq<FtsEnt>, ghost cids: seq<Id>, ghost free: set<Id>)
      returns (head: FtsEnt?, nitems: nat, ghost l: seq<FtsEnt>)
      requires w.Valid() && cur != null && CString(here) && GoodNames(names)
      requires len == Kept(here) + 1 <= path.Length && path[..len] == here[..Kept(here)] + "/"
      requires chain != [] && chain[|chain| - 1] == cur && Chained(chain, cids, root) && free == w.dirs - (set x | x in cids)
      modifies this`path, path
      ensures nitems == |l| && head == First(l)
      ensures (forall i :: 0 <= i < |l| ==> fresh(l[i])) && Linked(l, 0, |chain|, cur)
      ensures AllWaiting(w, l, here, w.Shown(names), free, |chain|)
      ensures (path == old(path) || fresh(path)) && path.Length >= old(path.Length) && path[..len] == old(path[..len])
      ensures AllFit(here, w.Shown(names), path.Length)
      ensures l == [] ==> path == old(path) && path[..] == old(path[..])
    {
      hide First, Linked, AllWaiting, Waiting, Chained, AllFit, World.Shown, World.Valid, Kept, CString, GoodNames, GoodName, Join, IsDot;
      StartEntries(w, here, names, cur, |chain|, free, path.Length);
      var tail: FtsEnt? := null;
      head, nitems, l := null, 0, [];
      ghost var done: seq<string> := [];
      ghost var goal := w.Shown(names);
      assert names[0..] == names;
      for i := 0 to |names|
        invariant nitems == |l| == |done| && done + w.Shown(names[i..]) == goal
        invariant head == First(l) && tail == (if l == [] then null else l[|l| - 1])
        invariant (forall j :: 0 <= j < |l| ==> fresh(l[j])) && Linked(l, 0, |chain|, cur)
        invariant AllWaiting(w, l, here, done, free, |chain|) && AllFit(here, done, path.Length)
        invariant path == old(path) || fresh(path)
        invariant path.Length >= old(path.Length) && path[..len] == old(path[..len])
        invariant l == [] ==> path == old(path) && path[..] == old(path[..])
      {
        ShownStep(w, names, i);
        if !w.seedot && IsDot(names[i]) {
        } else {
          GoodNameAt(names, i);
          ghost var room := path.Length;
          var p := NewChild(names[i], len, here, chain, cids, free, |l|);
          head := Append(head, tail, p, l, 0, |chain|, cur);
          tail := p;
          nitems := nitems + 1;
          FitMore(here, done, names[i], room, path.Length);
          OneWaiting(w, l, here, done, free, |chain|, p, names[i]);
          l, done := l + [p], done + [names[i]];
        }
      }
      assert names[|names|..] == [] && done + [] == done;
    }

    /** Where `fts_build` and `fts_read` append a name to the path of a node. */
    method Append1(p: FtsEnt, ghost here: string) returns (len: nat)
      requires p.pathlen == |here| > 0 && |here| <= path.Length && path[..|here|] == here
      ensures len == Kept(here)
    {
      assert path[p.pathlen - 1] == path[..|here|][|here| - 1];
      return if path[p.pathlen - 1] == '/' then p.pathlen - 1 else p.pathlen;
    }

    /** The part of `fts_build` that lists the entries of the current directory. */
    method BuildList(entries: seq<string>, len: nat, ghost here: string, ghost chain: seq<FtsEnt>, ghost cids: seq<Id>, ghost free: set<Id>)
      returns (head: FtsEnt?, ghost l: seq<FtsEnt>)
      requires w.Valid() && cur != null && GoodNames(entries) && CString(here) && here != "" && cur.info == D
      requires len == Kept(here) + 1 <= path.Length && path[..len] == here[..Kept(here)] + "/"
      requires chain != [] && chain[|chain| - 1] == cur && Chained(chain, cids, root) && free == w.dirs - (set x | x in cids)
      requires Shaped(w, root, cur, above, ids, rests, stack, nodes) && Alone(cur, above, rests)
      modifies this`path, path, cur`info, cur`failed
      ensures (path == old(path) || fresh(path)) && path.Length >= old(path.Length)
      ensures Shaped(w, root, cur, above, ids, rests, stack, nodes) && cur.failed == old(cur.failed)
      ensures w.Shown(entries) == [] ==> head == null && cur.info == DP && path == old(path) && Holds(path[..], here[..Kept(here)])
      ensures w.Shown(entries) != [] ==>
        && head != null && l != [] && head == l[0] && cur.info == D
        && (forall i :: 0 <= i < |l| ==> fresh(l[i])) && Linked(l, 0, |chain|, cur)
        && AllWaiting(w, l, here, w.Shown(entries), free, |chain|)
        && |here| <= path.Length && path[..|here|] == here && AllFit(here, w.Shown(entries), path.Length)
    {
      hide *;
      var nitems;
      head, nitems, l := ReadEntries(entries, len, here, chain, cids, free);
      EntriesFit(w, l, here, w.Shown(entries), free, |chain|, path.Length);
      EndPath(len, nitems, here);
      FirstIs(l);
      if nitems == 0 {
        SetInfo(cur, DP, cur.failed, w, root, above, ids, rests, stack, nodes);
        return null, l;
      }
    }

    /** `fts_build` for fts_read. */
    method Build(ghost here: string, ghost chain: seq<FtsEnt>, ghost cids: seq<Id>, ghost free: set<Id>)
      returns (head: FtsEnt?, ghost l: seq<FtsEnt>)
      requires w.Valid() && cur != null && !stopped && cur.info == D && cur.pathlen == |here| > 0
      requires CString(here) && Holds(path[..], here)
      requires chain != [] && chain[|chain| - 1] == cur && Chained(chain, cids, root) && free == w.dirs - (set x | x in cids)
      requires Shaped(w, root, cur, above, ids, rests, stack, nodes) && Alone(cur, above, rests)
      modifies this`path, this`stopped, path, cur`info, cur`failed
      ensures Shaped(w, root, cur, above, ids, rests, stack, nodes)
      ensures path == old(path) || fresh(path)
      ensures var all := w.readdir(here);
        && (all == None ==> head == null && !stopped && cur.info == DNR && path == old(path) && path[..] == old(path[..]))
        && (all.Some? && |chain| == 32768 ==>
          head == null && stopped && cur.info == ERR && path == old(path) && Kept(here) <= path.Length && path[..][..Kept(here)] == here[..Kept(here)])
        && (all.Some? && |chain| != 32768 ==> path.Length >= old(path.Length) && cur.failed == old(cur.failed) && !stopped)
        && (all.Some? && |chain| != 32768 && w.Shown(all.value) == [] ==>
          head == null && cur.info == DP && path == old(path) && Holds(path[..], here[..Kept(here)]))
        && (all.Some? && |chain| != 32768 && w.Shown(all.value) != [] ==>
          && head != null && l != [] && head == l[0] && cur.info == D
          && (forall i :: 0 <= i < |l| ==> fresh(l[i])) && Linked(l, 0, |chain|, cur)
          && AllWaiting(w, l, here, w.Shown(all.value), free, |chain|)
          && |here| <= path.Length && path[..|here|] == here && AllFit(here, w.Shown(all.value), path.Length))
    {
      assert w.Answers(here) && cur.level == |chain| - 1 && |path[..]| > |here| && path[..][..|here|] == here;
      assert w.readdir(here).Some? ==> GoodNames(w.readdir(here).value);
      hide *;
      l := [];
      var dirname := StringIn(path, here);
      var entries := w.readdir(dirname);
      if entries == None {
        SetInfo(cur, DNR, true, w, root, above, ids, rests, stack, nodes);
        return null, [];
      }
      assert path[..|here|] == here;
      var len := Append1(cur, here);
      path[len] := '/';
      len := len + 1;
      assert path[..len] == here[..Kept(here)] + "/";
      if cur.level == 32767 {
        assert path[..][..Kept(here)] == path[..len][..Kept(here)];
        SetInfo(cur, ERR, cur.failed, w, root, above, ids, rests, stack, nodes);
        stopped := true;
        return null, [];
      }
      head, l := BuildList(entries.value, len, here, chain, cids, free);
    }

    lemma {:induction false} FirstIs(l: seq<FtsEnt>)
      ensures l != [] ==> First(l) == l[0]
    {
    }

    /** Take the path back to what it was before the names were appended. */
    method EndPath(len: nat, nitems: nat, ghost here: string)
      requires here != "" && len == Kept(here) + 1 <= path.Length && path[..len] == here[..Kept(here)] + "/"
      requires nitems > 0 ==> len < path.Length
      modifies path
      ensures nitems == 0 ==> Holds(path[..], here[..Kept(here)])
      ensures nitems > 0 ==> |here| <= path.Length && path[..|here|] == here
    {
      if len == path.Length || nitems == 0 {
        path[len - 1] := '\0';
      } else {
        path[len] := '\0';
        assert path[..][..len] == path[..len];
        Slashed(here, path[..]);
        assert path[..][..|here|] == path[..|here|];
      }
    }

    /** p and the state of the walk are what is to be seen after the events `before` were to come. */
    ghost predicate Seen(before: seq<Event>, p: FtsEnt?)
      requires Valid()
      reads this, nodes, path
    {
      if before == [] || before[0] == Stop then p == null && Todo() == []
      else
        && p != null && p == cur
        && before[0] == Event(cur.info, before[0].path, cur.level)
        && Holds(path[..], before[0].path) && CString(before[0].path)
        && Todo() == before[1..]
    }

    lemma {:induction false} SeenAs(before: seq<Event>, e: Event)
      requires Valid() && cur != null && !stopped && (cur.info == D ==> stack != [] && stack[|stack| - 1].id in stack[|stack| - 1].free)
      requires stack != [] && before == [e] + Pending(w, stack, cur.info, dev)
      requires e.Event? && e == Event(cur.info, e.path, cur.level) && Holds(path[..], e.path) && CString(e.path)
      ensures Seen(before, cur)
    {
    }

    lemma {:induction false} SeenStop(before: seq<Event>)
      requires Valid() && stopped && before != [] && before[0] == Stop
      ensures Seen(before, null)
    {
    }

    /** The parts of a valid state. */
    lemma {:induction false} ValidFrom(d: nat, here: string)
      requires w.Valid() && cur != null && Shaped(w, root, cur, above, ids, rests, stack, nodes) && Below(cur, above, root)
      requires d == |above| && |stack| == d + 1 && here == stack[d].here && Current(cur, stack[d]) && cur.info != INIT
      requires Roomy(stack, path.Length) && |here| < path.Length
      requires |DirAt(stack, d)| < path.Length && path[..|DirAt(stack, d)|] == DirAt(stack, d)
      requires cur.info == D ==> here != "" && Holds(path[..], here)
      ensures Valid()
    {
      hide Shaped, Roomy, Current, Holds;
    }

    lemma {:induction false} NotEntered(n: FtsEnt, f: Frame)
      requires n.pathlen == |f.here| && n.info != D
      ensures Current(n, f)
    {
    }

    lemma {:induction false} StillEntered(n: FtsEnt, f: Frame)
      requires n.pathlen == |f.here| && n.info == D && !n.failed && Id(n.dev, n.ino) == f.id
      ensures Entered(n, f)
    {
    }

    /** What is known in the preorder visit of a directory. */
    lemma {:induction false} AtDirectory()
      requires Valid() && cur != null && cur.info == D && !stopped
      ensures var d := |above|;
        && w.Valid() && |stack| == d + 1 <= 32768 && cur.level == d
        && stack[d].id == Id(cur.dev, cur.ino) && stack[d].id in stack[d].free
        && cur.pathlen == |stack[d].here| > 0 && !cur.failed && CString(stack[d].here) && Holds(path[..], stack[d].here)
        && GoesOn(DirAt(stack, d), stack[d].here) && Todo() == Pending(w, stack, D, dev)
        && Structured() && cur in nodes && Shaped(w, root, cur, above, ids, rests, stack, nodes) && Below(cur, above, root)
        && Roomy(stack, path.Length) && |stack[d].here| < path.Length && |DirAt(stack, d)| < path.Length
        && (w.readdir(stack[d].here).Some? ==> GoodNames(w.Shown(w.readdir(stack[d].here).value)))
        && stack[d].id == stack[|stack| - 1].id && stack[d].free == stack[|stack| - 1].free
    {
      hide Pending;
      TopGoesOn(w, stack, |above|);
      assert w.Answers(stack[|above|].here);
      if w.readdir(stack[|above|].here).Some? {
        ShownGood(w, w.readdir(stack[|above|].here).value);
      }
    }

    /** The label `name` of fts_read: put the name of p behind the path of its parent. */
    method PutPath(p: FtsEnt, ghost here: string)
      requires p.parent != null && p.parent.pathlen == |here| > 0 && |here| <= path.Length && path[..|here|] == here
      requires |Join(here, p.name)| < path.Length
      modifies path
      ensures Holds(path[..], Join(here, p.name)) && path[..|here|] == here
    {
      var len := Append1(p.parent, here);
      path[len] := '/';
      assert path[..len + 1] == here[..Kept(here)] + "/";
      PutName(path, len + 1, p.name, path[..len + 1]);
      Slashed(here, path[..]);
      assert path[..][..|here|] == path[..|here|];
    }

    lemma {:induction false} EnterFacts(l: seq<FtsEnt>, names: seq<string>, here: string)
      requires cur != null && |stack| == |above| + 1 && here == stack[|above|].here != "" && Entered(cur, stack[|above|])
      requires names != [] && l != [] && Linked(l, 0, |stack|, cur)
      requires AllWaiting(w, l, here, names, stack[|above|].free - {stack[|above|].id}, |stack|)
      ensures l[0].name == names[0] && cur.pathlen == |here| > 0 && l[0].parent == cur && l[0].level == |stack|
      ensures l[0].info == w.InfoOf(here, names[0], stack[|above|].free - {stack[|above|].id}, |stack|) != INIT
      ensures |GoneDown(w, stack, names)| == |stack| + 1 && DirAt(GoneDown(w, stack, names), |stack|) == here
    {
      hide Arrive;
      assert Waiting(w, l[0], here, names[0], stack[|above|].free - {stack[|above|].id}, |stack|);
    }

    /** The move to the first node p in the current directory. */
    method Enter(p: FtsEnt, ghost l: seq<FtsEnt>, ghost names: seq<string>, ghost here: string)
      requires w.Valid() && cur != null && Shaped(w, root, cur, above, ids, rests, stack, nodes) && Below(cur, above, root)
      requires |stack| == |above| + 1 && here == stack[|above|].here
      requires Entered(cur, stack[|above|]) && stack[|above|].id in stack[|above|].free && here != ""
      requires names != [] && GoodNames(names) && l != [] && p == l[0] && Linked(l, 0, |stack|, cur) && |stack| < 32768
      requires AllWaiting(w, l, here, names, stack[|above|].free - {stack[|above|].id}, |stack|)
      requires Roomy(stack, path.Length) && AllFit(here, names, path.Length)
      requires CString(here) && |here| < path.Length && path[..|here|] == here
      modifies this, path
      ensures Valid() && cur == p && stack == old(GoneDown(w, stack, names)) && nodes == old(nodes) + (set n | n in l)
      ensures path == old(path) && stopped == old(stopped) && dev == old(dev) && |stack| == |old(stack)| + 1
      ensures cur.level == |old(stack)| && cur.info == w.InfoOf(here, names[0], old(stack[|above|].free - {stack[|above|].id}), |old(stack)|)
      ensures Holds(path[..], stack[|stack| - 1].here)
    {
      hide *;
      ghost var d, stack' := |above|, GoneDown(w, stack, names);
      EnterFacts(l, names, here);
      ShapeDown(w, root, cur, above, ids, rests, stack, nodes, l, names);
      RoomyDown(w, stack, names, path.Length);
      PutPath(p, here);
      ids := ids + [stack[d].id];
      above, rests, stack, nodes := above + [cur], rests + [l[1..]], stack', nodes + (set n | n in l);
      cur := p;
      ValidFrom(d + 1, stack[d + 1].here);
    }

    lemma {:induction false} ValidRoomy()
      requires Valid() && cur != null
      ensures Roomy(stack, path.Length)
    {
    }

    /** fts_read in the preorder visit of a directory. */
    method Descend() returns (p: FtsEnt?)
      requires Valid() && cur != null && cur.info == D && !stopped
      modifies this, path, cur
      ensures Valid() && nodes >= old(nodes) && fresh(nodes - old(nodes)) && (path == old(path) || fresh(path))
      ensures Seen(old(Todo()), p)
    {
      hide *;
      AtDirectory();
      CStringHere(stack, path.Length, |above|);
      Apart(w, root, cur, above, ids, rests, stack, nodes);
      ghost var d := |above|;
      ghost var top, before := stack[d], Todo();
      FreeBelow(w, root, cur, above, ids, rests, stack, nodes);
      NothingInside(w, stack, dev);
      PrefixKept(DirAt(stack, d), top.here, path[..]);
      if w.xdev && cur.dev != dev {
        SetInfo(cur, DP, cur.failed, w, root, above, ids, rests, stack, nodes);
        NotEntered(cur, top);
        ValidFrom(d, top.here);
        SeenAs(before, Event(DP, top.here, d));
        return cur;
      }
      var head; ghost var l;
      ghost var room := path.Length;
      head, l := Build(top.here, above + [cur], ids + [top.id], top.free - {top.id});
      if head == null {
        PrefixKept(DirAt(stack, d), top.here, path[..]);
        NotEntered(cur, top);
        ValidFrom(d, top.here);
        if stopped {
          SeenStop(before);
          return null;
        }
        SeenAs(before, Event(cur.info, if cur.info == DNR then top.here else top.here[..Kept(top.here)], d));
        return cur;
      }
      RoomyMore(stack, room, path.Length);
      StillEntered(cur, top);
      GoDown(w, stack, dev);
      Enter(head, l, w.Shown(w.readdir(top.here).value), top.here);
      ValidRoomy();
      CStringHere(stack, path.Length, d + 1);
      SeenAs(before, Event(cur.info, stack[d + 1].here, d + 1));
      return head;
    }

    /** What is known when a visit is over and another node follows on the level. */
    lemma {:induction false} AtSibling()
      requires Valid() && cur != null && cur.info != D && !stopped && cur.link != null
      ensures var d := |above|;
        && w.Valid() && |stack| == |rests| == d + 1 && rests[d] != [] && cur.link == rests[d][0]
        && stack[d].todo != [] && stack[|stack| - 1].todo != [] && GoodNames(stack[d].todo) && (d == 0 ==> stack[0].free == w.dirs)
        && Shaped(w, root, cur, above, ids, rests, stack, nodes) && Roomy(stack, path.Length)
        && |DirAt(stack, d)| < path.Length && path[..|DirAt(stack, d)|] == DirAt(stack, d)
        && Todo() == After(w, stack, dev)
        && (d > 0 ==> DirAt(stack, d) != "" && above[d - 1].pathlen == |DirAt(stack, d)|)
    {
      var d := |above|;
      assert Level(w, root, cur, above, rests, stack, nodes, d);
      hide World.VisitAll, LevelOk, Roomy, Above;
      if d > 0 {
        assert Continues(stack, d);
        assert Entered(above[d - 1], stack[d - 1]);
      }
    }

    /** fts_read when another node follows on a level below a directory. */
    method GoOn(p: FtsEnt)
      requires Valid() && cur != null && cur.info != D && !stopped && cur.link == p && above != []
      modifies this, path
      ensures Valid() && nodes == old(nodes) && path == old(path)
      ensures Seen(old(Todo()), p)
    {
      hide *;
      AtSibling();
      ghost var d, stack', before := |above|, MovedOn(w, stack), Todo();
      ShapeOn(w, root, cur, above, ids, rests, stack, nodes);
      NodeOf(p, DirAt(stack, d), stack[d].todo[0], stack[d].free, d);
      RoomyOn(w, stack, path.Length);
      MoveOn(w, stack, dev);
      ParentIs(p);
      PutPath(p, DirAt(stack, d));
      rests, stack := rests[..d] + [rests[d][1..]], stack';
      cur := p;
      ValidFrom(d, stack[d].here);
      CStringHere(stack, path.Length, d);
      SeenAs(before, Event(cur.info, stack[d].here, d));
    }

    lemma {:induction false} NodeOf(p: FtsEnt, dir: string, name: string, free: set<Id>, d: nat)
      requires Waiting(w, p, dir, name, free, d)
      ensures p.name == name && p.info == w.InfoOf(dir, name, free, d) != INIT
    {
    }

    lemma {:induction false} ParentIs(p: FtsEnt)
      requires above != [] && Below(p, above, root)
      ensures p.parent == above[|above| - 1]
    {
    }

    /** A root becomes current when its path is loaded. */
    lemma {:induction false} RootCurrent(p: FtsEnt, arg: string, free: set<Id>, f: Frame)
      requires w.Valid() && free == w.dirs && p.pathlen == |arg| && f.here == arg
      requires p.info == w.InfoOf("", arg, free, 0) && (p.info == D ==> !p.failed && w.StatAt("", arg, 0) == Dir(Id(p.dev, p.ino)))
      requires f == Arrive(w, "", [arg] + f.todo, free, 0)
      ensures Current(p, f) && (p.info == D ==> f.id.dev == p.dev)
    {
      ArriveEnters(w, "", [arg] + f.todo, free, 0);
      assert ([arg] + f.todo)[0] == arg;
    }

    lemma {:induction false} RootWaits(p: FtsEnt, arg: string, free: set<Id>)
      requires Waiting(w, p, "", arg, free, 0)
      ensures p.name == arg && p.info == w.InfoOf("", arg, free, 0) != INIT
      ensures p.info == D ==> !p.failed && w.StatAt("", arg, 0) == Dir(Id(p.dev, p.ino))
    {
    }

    lemma {:induction false} FirstFrame(d: nat)
      requires d == 0 && |stack| == 1 && stack[0].todo != [] && stack[0].free == w.dirs
      ensures var f := MovedOn(w, stack)[0];
        f == Arrive(w, "", [stack[0].todo[0]] + f.todo, w.dirs, 0)
    {
      ArriveIs(w, "", stack[0].todo, w.dirs, 0);
      var f := Arrive(w, "", stack[0].todo, w.dirs, 0);
      assert [stack[0].todo[0]] + f.todo == stack[0].todo;
    }

    /** fts_read when another root follows: `fts_load`. */
    method GoOnRoot(p: FtsEnt)
      requires Valid() && cur != null && cur.info != D && !stopped && cur.link == p && above == []
      modifies this, path, p
      ensures Valid() && nodes == old(nodes) && path == old(path)
      ensures Seen(old(Todo()), p) && p.name == LastPart(old(p.name))
    {
      hide *;
      AtSibling();
      ghost var stack', before, arg := MovedOn(w, stack), Todo(), stack[0].todo[0];
      ShapeOn(w, root, cur, above, ids, rests, stack, nodes);
      assert DirAt(stack, 0) == "" by {
        NoDir(stack);
      }
      RootWaits(p, arg, stack[0].free);
      RoomyOn(w, stack, path.Length);
      MoveOn(w, stack, dev);
      FirstFrame(0);
      rests, stack := rests[..0] + [rests[0][1..]], stack';
      cur := p;
      Apart(w, root, cur, above, ids, rests, stack, nodes);
      PutName(path, 0, p.name, "");
      assert "" + arg == arg;
      LoadNode(p, LastPart(p.name), |p.name|, w, root, above, ids, rests, stack, nodes);
      dev := p.dev;
      RootCurrent(p, arg, w.dirs, stack[0]);
      ValidFrom(0, stack[0].here);
      if p.info != D {
        RootDevice(w, stack, p.info, dev, stack[0].id.dev);
      }
      CStringHere(stack, path.Length, 0);
      SeenAs(before, Event(cur.info, arg, 0));
    }

    lemma {:induction false} NoDir(stack: seq<Frame>)
      ensures DirAt(stack, 0) == ""
    {
    }

    /** What is known when a visit is over and no other node follows on the level. */
    lemma {:induction false} AtLast()
      requires Valid() && cur != null && cur.info != D && !stopped && cur.link == null
      ensures var d := |above|;
        && w.Valid() && |stack| == |rests| == |ids| + 1 == d + 1 && stack[|stack| - 1].todo == []
        && Shaped(w, root, cur, above, ids, rests, stack, nodes) && Roomy(stack, path.Length) && Todo() == After(w, stack, dev)
        && cur.parent == UpFrom(above, d, root) && root.level == -1
    {
      var d := |above|;
      assert Level(w, root, cur, above, rests, stack, nodes, d);
      assert Chained(above, ids, root);
      hide World.VisitAll, LevelOk, Roomy, Above;
      NoneLeft(d);
    }

    /** What is known about the parent of the current node. */
    lemma {:induction false} AboveCurrent(d: nat, here: string)
      requires Valid() && cur != null && above != [] && d == |above| - 1 && d < |stack| && here == stack[d].here
      ensures DirAt(stack, d + 1) == here != "" && |here| < path.Length && path[..|here|] == here
      ensures above[d].level == d && above[d] in nodes && GoesOn(DirAt(stack, d), here) && |DirAt(stack, d)| < path.Length
      ensures stack[d].id in stack[d].free && DirAt(stack[..d + 1], d) == DirAt(stack, d)
    {
      assert Chained(above, ids, root);
      assert Continues(stack, d + 1);
      TopGoesOn(w, stack, d);
      hide Level, LevelOk, Roomy, Above;
    }

    lemma {:induction false} NoneLeft(d: nat)
      requires cur != null && d == |above| && |rests| == |stack| == d + 1 && Owned(root, cur, above, rests, nodes) && cur.link == null
      requires Level(w, root, cur, above, rests, stack, nodes, d)
      ensures rests[d] == [] && stack[d].todo == []
    {
    }

    lemma {:induction false} RoomyUp(stack: seq<Frame>, room: nat)
      requires Roomy(stack, room) && |stack| > 1
      ensures Roomy(stack[..|stack| - 1], room)
    {
      var stack' := stack[..|stack| - 1];
      forall e | 0 <= e < |stack'|
        ensures Fits(stack', e, room)
      {
        assert Fits(stack, e, room);
      }
    }

    lemma {:induction false} EnteredIs(n: FtsEnt, f: Frame)
      requires Entered(n, f)
      ensures n.info == D && !n.failed && n.pathlen == |f.here| && Id(n.dev, n.ino) == f.id
    {
    }

    /** fts_read behind the last node of a level: the postorder visit of the parent, or the end. */
    method Ascend() returns (p: FtsEnt?)
      requires Valid() && cur != null && cur.info != D && !stopped && cur.link == null
      modifies this, path, nodes
      ensures Valid() && nodes == old(nodes) && path == old(path)
      ensures Seen(old(Todo()), p)
    {
      hide *;
      AtLast();
      ghost var before := Todo();
      TopOf(above);
      if above != [] {
        AboveCurrent(|above| - 1, stack[|above| - 1].here);
      }
      p := cur.parent;
      if p.level == -1 {
        Finished(w, stack, dev);
        cur := null;
        ValidEnd();
        SeenEnd(before);
        return null;
      }
      ghost var d, here := |above| - 1, stack[|above| - 1].here;
      ShapeUp(w, root, cur, above, ids, rests, stack, nodes);
      EnteredIs(p, stack[d]);
      RoomyUp(stack, path.Length);
      GoUp(w, stack, dev);
      assert path[..][..|here|] == path[..|here|];
      path[p.pathlen] := '\0';
      assert path[..][..|here|] == path[..|here|];
      HoldsIf(path[..], here);
      above, ids, rests, stack := above[..d], ids[..d], rests[..d + 1], stack[..d + 1];
      cur := p;
      Apart(w, root, cur, above, ids, rests, stack, nodes);
      SetInfo(p, if p.failed then ERR else DP, p.failed, w, root, above, ids, rests, stack, nodes);
      NotEntered(p, stack[d]);
      PrefixKept(DirAt(stack, d), here, path[..]);
      assert path[..][..|DirAt(stack, d)|] == path[..|DirAt(stack, d)|];
      ValidFrom(d, here);
      CStringHere(stack, path.Length, d);
      SeenAs(before, Event(DP, here, d));
    }

    lemma {:induction false} ValidEnd()
      requires w.Valid() && cur == null
      ensures Valid()
    {
    }

    lemma {:induction false} TopOf(chain: seq<FtsEnt>)
      ensures UpFrom(chain, |chain|, root) == if chain == [] then root else chain[|chain| - 1]
    {
    }

    lemma {:induction false} HoldsIf(b: seq<char>, s: string)
      requires |s| < |b| && b[..|s|] == s && b[|s|] == '\0'
      ensures Holds(b, s)
    {
    }

    lemma {:induction false} SeenEnd(before: seq<Event>)
      requires Valid() && cur == null && before == []
      ensures Seen(before, null)
    {
    }

    /** The end of `fts_open`: a node before the first root, so that the first read goes on to it. */
    method Begin(head: FtsEnt?, ghost l: seq<FtsEnt>, ghost args: seq<string>)
      requires w.Valid() && cur == null && !stopped && nodes == {root} && root.level == -1 && root !in l
      requires head == First(l) && Linked(l, 0, 0, root) && AllWaiting(w, l, "", args, w.dirs, 0)
      requires path.Length > 0 && GoodNames(args) && forall i :: 0 <= i < |args| ==> |args[i]| < path.Length
      modifies this
      ensures path == old(path) && cur != null && fresh(cur) && nodes == {root, cur} + (set n | n in l)
      ensures args != [] ==> Valid() && Todo() == w.Listing(args)
    {
      hide First, Linked, AllWaiting, GoodNames, World.Valid;
      var dummy := new FtsEnt("", false, -1);
      dummy.link := head;
      BeginShape(dummy, l, args);
      cur := dummy;
      above, ids, rests, stack := [], [], [l], [Frame("", Id(0, 0), w.dirs, args)];
      nodes := {root, dummy} + (set n | n in l);
      hide *;
      if args != [] {
        BeginValid(dummy, l, args);
      }
    }

    lemma {:induction false} BeginShape(dummy: FtsEnt, l: seq<FtsEnt>, args: seq<string>)
      requires dummy.pos == -1 && dummy.level == 0 && dummy.link == First(l) && root.level == -1 && GoodNames(args)
      requires Linked(l, 0, 0, root) && AllWaiting(w, l, "", args, w.dirs, 0)
      ensures Shaped(w, root, dummy, [], [], [l], [Frame("", Id(0, 0), w.dirs, args)], {root, dummy} + (set n | n in l))
      ensures args != [] ==> l != []
    {
      var nodes, stack := {root, dummy} + (set n | n in l), [Frame("", Id(0, 0), w.dirs, args)];
      assert Stacked(w, stack);
      hide Linked, AllWaiting, Stacked, GoodNames;
      assert Owned(root, dummy, [], [l], nodes);
      LastLevel(w, root, dummy, [], [l], stack, nodes);
      hide Owned, Level;
      assert forall e :: 0 <= e < |[l]| ==> Level(w, root, dummy, [], [l], stack, nodes, e);
      hide Linked, AllWaiting;
      assert Chained([], [], root);
    }

    lemma {:induction false} BeginValid(dummy: FtsEnt, l: seq<FtsEnt>, args: seq<string>)
      requires w.Valid() && cur == dummy && dummy.info == INIT && dummy.pathlen == 0 && !stopped && l != []
      requires above == [] && ids == [] && rests == [l] && stack == [Frame("", Id(0, 0), w.dirs, args)]
      requires Shaped(w, root, cur, above, ids, rests, stack, nodes)
      requires forall i :: 0 <= i < |args| ==> |args[i]| < path.Length
      requires path.Length > 0
      ensures Valid() && Todo() == w.Listing(args)
    {
      hide Shaped, World.Valid, World.VisitAll;
      assert Fits(stack, 0, path.Length);
      assert path[..0] == [];
      assert stack[..0] == [];
      assert Above(w, stack[..0], dev) == [];
      var es := w.VisitAll("", args, w.dirs, 0, 0);
      assert After(w, stack, dev) == es + [] == es;
      assert Pending(w, stack, INIT, dev) == [] + es == es;
    }

    /** `fts_read` returns the next node of the walk, or null when there is none or the walk is stopped. */
    method Read() returns (p: FtsEnt?)
      requires Valid()
      modifies this, path, nodes
      ensures Valid() && nodes >= old(nodes) && fresh(nodes - old(nodes)) && (path == old(path) || fresh(path))
      ensures Seen(old(Todo()), p)
    {
      hide *;
      if cur == null || stopped {
        NothingLeft();
        return null;
      }
      InNodes();
      if cur.info == D {
        p := Descend();
      } else if cur.link != null {
        p := cur.link;
        if p.level == 0 {
          GoOnRoot(p);
        } else {
          GoOn(p);
        }
      } else {
        p := Ascend();
      }
    }

    lemma {:induction false} NothingLeft()
      requires Valid() && (cur == null || stopped)
      ensures Seen(Todo(), null)
    {
    }

    lemma {:induction false} InNodes()
      requires Valid() && cur != null && !stopped
      ensures cur in nodes
      ensures cur.info != D && cur.link != null ==> cur.link in nodes && cur.link.level == |above|
    {
      if cur.info != D && cur.link != null {
        AtSibling();
        ShapeOn(w, root, cur, above, ids, rests, stack, nodes);
      }
    }
  }

  predicate AllCStrings(args: seq<string>) {
    forall i :: 0 <= i < |args| ==> CString(args[i])
  }

  /** `fts_maxarglen` */
  method MaxArgLen(args: seq<string>) returns (max: nat)
    ensures max > 0 && forall i :: 0 <= i < |args| ==> |args[i]| < max
  {
    max := 0;
    for i := 0 to |args|
      invariant forall j :: 0 <= j < i ==> |args[j]| <= max
    {
      if |args[i]| > max {
        max := |args[i]|;
      }
    }
    max := max + 1;
  }

  lemma {:induction false} RootWaiting(w: World, p: FtsEnt, arg: string)
    requires p.name == arg && p.ownName
    requires var info := w.Classify(arg, arg, w.dirs, w.comfollow);
      && p.info == (if info == DOT then D else info)
      && (info == D || info == DOT ==> !p.failed && w.StatOf(arg, w.comfollow) == Dir(Id(p.dev, p.ino)))
    ensures Waiting(w, p, "", arg, w.dirs, 0)
  {
  }

  /** A new node for an argument. */
  method NewRoot(w: World, arg: string, root: FtsEnt, ghost pos: int) returns (p: FtsEnt)
    requires w.Valid() && root.level == -1
    ensures fresh(p) && p.pos == pos && p.level == 0 && p.parent == root && p.link == null && Waiting(w, p, "", arg, w.dirs, 0)
  {
    p := new FtsEnt(arg, true, pos);
    p.level := 0;
    p.parent := root;
    p.info := FtsStat(w, p, p.name, w.comfollow, [], [], root, w.dirs);
    ghost var info := p.info;
    if p.info == DOT {
      p.info := D;
    }
    hide World.Valid, World.Classify, World.StatOf;
    RootWaiting(w, p, arg);
  }

  /** The loop of `fts_open`: the list of the roots, or null if an argument is empty. */
  method NewRoots(w: World, args: seq<string>, root: FtsEnt) returns (ok: bool, head: FtsEnt?, ghost l: seq<FtsEnt>)
    requires w.Valid() && root.level == -1
    ensures ok <==> "" !in args
    ensures ok ==> head == First(l) && Linked(l, 0, 0, root) && AllWaiting(w, l, "", args, w.dirs, 0)
    ensures ok ==> forall i :: 0 <= i < |l| ==> fresh(l[i])
  {
    hide Linked, AllWaiting, Waiting, First, World.Valid;
    StartEntries(w, "", args, root, 0, w.dirs, 0);
    var tail: FtsEnt? := null;
    head, l := null, [];
    assert args[..0] == [];
    for i := 0 to |args|
      invariant "" !in args[..i] && |l| == i && head == First(l) && tail == (if l == [] then null else l[|l| - 1])
      invariant Linked(l, 0, 0, root) && AllWaiting(w, l, "", args[..i], w.dirs, 0)
      invariant forall j :: 0 <= j < |l| ==> fresh(l[j])
    {
      if |args[i]| == 0 {
        return false, null, [];
      }
      var p := NewRoot(w, args[i], root, i);
      head := Append(head, tail, p, l, 0, 0, root);
      tail := p;
      OneWaiting(w, l, "", args[..i], w.dirs, 0, p, args[i]);
      assert args[..i + 1] == args[..i] + [args[i]];
      l := l + [p];
    }
    assert args[..|args|] == args;
    ok := true;
  }

  /** `fts_open`.  Without arguments the first read would use a node that was never filled in. */
  method Open(w: World, args: seq<string>) returns (sp: Fts?)
    requires w.Valid() && AllCStrings(args)
    ensures sp == null <==> "" in args
    ensures sp != null ==> fresh(sp) && sp.w == w
    ensures sp != null && args != [] ==> fresh(sp.path) && fresh(sp.nodes) && sp.Valid() && sp.Todo() == w.Listing(args)
  {
    hide First, Linked, AllWaiting, RoundUp, World.Valid, World.Listing, Fts.Todo, Fts.Valid;
    var len := MaxArgLen(args);
    var path := new char[RoundUp(if len > 1024 then len else 1024)](_ => '\0');
    var parent := new FtsEnt("", false, 0);
    parent.level := -1;
    var ok, head; ghost var l;
    ok, head, l := NewRoots(w, args, parent);
    if !ok {
      return null;
    }
    assert GoodNames(args);
    sp := new Fts(w, path, parent);
    sp.Begin(head, l, args);
  }

  /** Reading to the end.  It does end: each read takes away one of the events that are to come. */
  method ReadAll(sp: Fts) returns (seen: seq<Event>)
    requires sp.Valid()
    modifies sp, sp.path, sp.nodes
    ensures seen == UpToStop(old(sp.Todo()))
  {
    hide *;
    ghost var nodes0, all := sp.nodes, sp.Todo();
    seen := [];
    CutHead(all);
    var p := sp.Read();
    ghost var before := all;
    while p != null
      invariant sp.Valid() && sp.Seen(before, p) && fresh(sp.nodes - nodes0) && (sp.path == old(sp.path) || fresh(sp.path))
      invariant seen + UpToStop(before) == UpToStop(all)
      decreases |before|
    {
      SeenNode(sp, before, p);
      CutHead(before);
      var path := StringIn(sp.path, before[0].path);
      seen := seen + [Event(p.info, path, p.level)];
      before := sp.Todo();
      p := sp.Read();
    }
    SeenNull(sp, before);
    CutHead(before);
  }

  lemma {:induction false} SeenNode(sp: Fts, before: seq<Event>, p: FtsEnt)
    requires sp.Valid() && sp.Seen(before, p)
    ensures before != [] && before[0].Event? && p.level >= 0 && before[0] == Event(p.info, before[0].path, p.level)
    ensures Holds(sp.path[..], before[0].path) && CString(before[0].path) && sp.Todo() == before[1..]
  {
  }

  lemma {:induction false} SeenNull(sp: Fts, before: seq<Event>)
    requires sp.Valid() && sp.Seen(before, null)
    ensures before == [] || before[0] == Stop
  {
  }

  /** A walk of fewer than 32768 directories shows exactly the listing, whatever cycles there are. */
  method Walk(w: World, args: seq<string>) returns (seen: seq<Event>)
    requires w.Valid() && AllCStrings(args) && args != [] && "" !in args
    ensures seen == UpToStop(w.Listing(args))
    ensures |w.dirs| <= 32767 ==> seen == w.Listing(args)
  {
    var sp := Open(w, args);
    seen := ReadAll(sp);
    if |w.dirs| <= 32767 {
      w.NeverStopped("", args, w.dirs, 0, 0);
      NothingCut(w.Listing(args));
    }
  }
}
