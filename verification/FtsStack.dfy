/** Where a walk stands: what has been visited above the current node, and what is still to come. */
module FtsStack {
  import opened Options
  import opened FtsTree

  /** One level: the path of the node that is being visited on it, that node's identity if it was
      entered, the directories not above this level, and the names that follow on it. */
  datatype Frame = Frame(here: string, id: Id, free: set<Id>, todo: seq<string>)

  /** The directory that level e lists. */
  function DirAt(stack: seq<Frame>, e: nat): string
    requires e <= |stack|
  {
    if e == 0 then "" else stack[e - 1].here
  }

  /** What is still to come when the current node and everything below it is done.  `dev` is the
      device of the root that is being walked. */
  function After(w: World, stack: seq<Frame>, dev: nat): seq<Event>
    requires stack != []
    decreases |stack|, 0
  {
    var d := |stack| - 1;
    w.VisitAll(DirAt(stack, d), stack[d].todo, stack[d].free, d, if d == 0 then 0 else dev) + Above(w, stack[..d], dev)
  }

  /** What is still to come when the directory on top of `below` is done. */
  function Above(w: World, below: seq<Frame>, dev: nat): seq<Event>
    decreases |below|, 1
  {
    if below == [] then [] else [Event(DP, below[|below| - 1].here, |below| - 1)] + After(w, below, dev)
  }

  /** What is still to come after the visit of the current node as `info`. */
  function Pending(w: World, stack: seq<Frame>, info: Info, dev: nat): seq<Event>
    requires stack != [] && (info == D ==> stack[|stack| - 1].id in stack[|stack| - 1].free)
  {
    var top := stack[|stack| - 1];
    (if info == D then w.Inside(top.here, top.id, top.free, |stack| - 1, dev) else []) + After(w, stack, dev)
  }

  /** The frame for the first of some names. */
  function Arrive(w: World, dir: string, names: seq<string>, free: set<Id>, level: nat): Frame
    requires names != []
  {
    var st := w.StatAt(dir, names[0], level);
    Frame(PathOf(dir, names[0], level), if st.Dir? then st.id else Id(0, 0), free, names[1..])
  }

  /** The stack when the next name on the top level is the current node. */
  function MovedOn(w: World, stack: seq<Frame>): seq<Frame>
    requires stack != [] && stack[|stack| - 1].todo != []
  {
    var d := |stack| - 1;
    stack[..d] + [Arrive(w, DirAt(stack, d), stack[d].todo, stack[d].free, d)]
  }

  /** The stack when the first of the names in the current directory is the current node. */
  function GoneDown(w: World, stack: seq<Frame>, names: seq<string>): seq<Frame>
    requires stack != [] && names != []
  {
    var top := stack[|stack| - 1];
    stack + [Arrive(w, top.here, names, top.free - {top.id}, |stack|)]
  }

  /** The first of some names is entered when it is classified as a directory. */
  lemma {:induction false} ArriveEnters(w: World, dir: string, names: seq<string>, free: set<Id>, level: nat)
    requires names != [] && w.Valid() && (level == 0 ==> free == w.dirs)
    ensures var f := Arrive(w, dir, names, free, level);
      w.InfoOf(dir, names[0], free, level) == D <==> w.Enters(dir, names[0], free, level)
    ensures w.InfoOf(dir, names[0], free, level) == D ==> w.StatAt(dir, names[0], level) == Dir(Arrive(w, dir, names, free, level).id)
    ensures w.InfoOf(dir, names[0], free, level) == D ==> Arrive(w, dir, names, free, level).id in free
  {
    assert w.Answers(PathOf(dir, names[0], level));
  }

  /** Visiting the first of some names. */
  lemma {:induction false} VisitFirst(w: World, dir: string, names: seq<string>, free: set<Id>, level: nat, dev: nat)
    requires names != [] && w.Valid() && (level == 0 ==> free == w.dirs)
    ensures var f, info := Arrive(w, dir, names, free, level), w.InfoOf(dir, names[0], free, level);
      && (info == D ==> f.id in free)
      && w.VisitAll(dir, names, free, level, dev) == [Event(info, f.here, level)]
        + ((if info == D then w.Inside(f.here, f.id, free, level, if level == 0 then f.id.dev else dev) else [])
           + w.VisitAll(dir, names[1..], free, level, dev))
  {
    ArriveEnters(w, dir, names, free, level);
    hide World.Valid, World.Inside, World.InfoOf;
    var v := w.Visit(dir, names[0], free, level, dev);
    var rest := w.VisitAll(dir, names[1..], free, level, dev);
    assert w.VisitAll(dir, names, free, level, dev) == v + rest;
  }

  lemma {:induction false} Regroup(e: Event, i: seq<Event>, r: seq<Event>, t: seq<Event>)
    ensures ([e] + (i + r)) + t == [e] + (i + (r + t))
  {
  }

  /** Going on to the next name on the level of the current node. */
  lemma {:induction false} MoveOn(w: World, stack: seq<Frame>, dev: nat)
    requires stack != [] && stack[|stack| - 1].todo != [] && w.Valid()
    requires |stack| == 1 ==> stack[0].free == w.dirs
    ensures var d := |stack| - 1;
      var stack' := MovedOn(w, stack);
      var info := w.InfoOf(DirAt(stack, d), stack[d].todo[0], stack[d].free, d);
      && |stack'| == |stack| && (info == D ==> stack'[d].id in stack'[d].free)
      && After(w, stack, dev) == [Event(info, stack'[d].here, d)] + Pending(w, stack', info, if d == 0 then stack'[0].id.dev else dev)
  {
    hide World.Valid, World.Inside, World.InfoOf, World.VisitAll, Arrive;
    var d := |stack| - 1;
    var stack' := MovedOn(w, stack);
    var dir, todo, free := DirAt(stack, d), stack[d].todo, stack[d].free;
    VisitFirst(w, dir, todo, free, d, if d == 0 then 0 else dev);
    ArriveIs(w, dir, todo, free, d);
    var f := stack'[d];
    assert stack'[..d] == stack[..d] && f == Arrive(w, dir, todo, free, d) && DirAt(stack', d) == dir;
    var info := w.InfoOf(dir, todo[0], free, d);
    var dev' := if d == 0 then f.id.dev else dev;
    var rest := w.VisitAll(dir, todo[1..], free, d, if d == 0 then 0 else dev);
    assert After(w, stack', dev') == rest + Above(w, stack[..d], dev);
    Regroup(Event(info, f.here, d), if info == D then w.Inside(f.here, f.id, free, d, dev') else [], rest, Above(w, stack[..d], dev));
  }

  lemma {:induction false} ArriveIs(w: World, dir: string, names: seq<string>, free: set<Id>, level: nat)
    requires names != []
    ensures var f := Arrive(w, dir, names, free, level);
      f.here == PathOf(dir, names[0], level) && f.free == free && f.todo == names[1..]
  {
  }

  /** Going up from the last node of a level. */
  lemma {:induction false} GoUp(w: World, stack: seq<Frame>, dev: nat)
    requires |stack| > 1 && stack[|stack| - 1].todo == []
    ensures var d := |stack| - 1;
      After(w, stack, dev) == [Event(DP, stack[d - 1].here, d - 1)] + Pending(w, stack[..d], DP, dev)
  {
    var d := |stack| - 1;
    assert Pending(w, stack[..d], DP, dev) == After(w, stack[..d], dev);
  }

  lemma {:induction false} InsideShown(w: World, path: string, id: Id, free: set<Id>, level: nat, dev: nat)
    requires id in free && !(w.xdev && id.dev != dev) && level != 32767
    requires w.readdir(path).Some? && w.Shown(w.readdir(path).value) != []
    ensures w.Inside(path, id, free, level, dev)
            == w.VisitAll(path, w.Shown(w.readdir(path).value), free - {id}, level + 1, dev) + [Event(DP, path, level)]
  {
    hide World.VisitAll, World.Shown;
  }

  /** Going down to the first node in the current directory. */
  lemma {:induction false} GoDown(w: World, stack: seq<Frame>, dev: nat)
    requires stack != [] && w.Valid()
    requires var top := stack[|stack| - 1];
      && top.id in top.free && !(w.xdev && top.id.dev != dev) && |stack| <= 32767
      && w.readdir(top.here).Some? && w.Shown(w.readdir(top.here).value) != []
    ensures var d := |stack|;
      var top := stack[d - 1];
      var names := w.Shown(w.readdir(top.here).value);
      var stack' := GoneDown(w, stack, names);
      var info := w.InfoOf(top.here, names[0], top.free - {top.id}, d);
      && (info == D ==> stack'[d].id in stack'[d].free)
      && Pending(w, stack, D, dev) == [Event(info, stack'[d].here, d)] + Pending(w, stack', info, dev)
  {
    hide World.Valid, World.InfoOf, World.VisitAll, World.Inside, World.Shown, Arrive;
    var d := |stack|;
    var top := stack[d - 1];
    InsideShown(w, top.here, top.id, top.free, d - 1, dev);
    var names := w.Shown(w.readdir(top.here).value);
    var stack' := GoneDown(w, stack, names);
    var free := top.free - {top.id};
    VisitFirst(w, top.here, names, free, d, dev);
    ArriveIs(w, top.here, names, free, d);
    var f := stack'[d];
    assert stack'[..d] == stack && f == Arrive(w, top.here, names, free, d) && DirAt(stack', d) == top.here;
    var info := w.InfoOf(top.here, names[0], free, d);
    var rest := w.VisitAll(top.here, names[1..], free, d, dev);
    var last := [Event(DP, top.here, d - 1)];
    Regroup(Event(info, f.here, d), if info == D then w.Inside(f.here, f.id, free, d, dev) else [], rest, Above(w, stack, dev));
    assert (w.VisitAll(top.here, names, free, d, dev) + last) + After(w, stack, dev)
      == w.VisitAll(top.here, names, free, d, dev) + (last + After(w, stack, dev));
  }

  /** What is to be seen next in the current directory, if nothing in it is visited. */
  lemma {:induction false} NothingInside(w: World, stack: seq<Frame>, dev: nat)
    requires stack != [] && stack[|stack| - 1].id in stack[|stack| - 1].free
    ensures var d, top := |stack| - 1, stack[|stack| - 1];
      var before := Pending(w, stack, D, dev);
      if w.xdev && top.id.dev != dev then before == [Event(DP, top.here, d)] + Pending(w, stack, DP, dev)
      else match w.readdir(top.here)
        case None => before == [Event(DNR, top.here, d)] + Pending(w, stack, DNR, dev)
        case Some(all) =>
          if |stack| == 32768 then before != [] && before[0] == Stop
          else w.Shown(all) == [] ==> before == [Event(DP, top.here[..Kept(top.here)], d)] + Pending(w, stack, DP, dev)
  {
    hide World.VisitAll, World.Shown, After;
  }

  /** Above the first level the device of the root does not matter. */
  lemma {:induction false} RootDevice(w: World, stack: seq<Frame>, info: Info, dev: nat, dev': nat)
    requires |stack| == 1 && info != D
    ensures Pending(w, stack, info, dev) == Pending(w, stack, info, dev') == After(w, stack, dev)
  {
    hide World.VisitAll;
    assert stack[..0] == [];
    assert Above(w, stack[..0], dev) == [] && Above(w, stack[..0], dev') == [];
  }

  /** The end of everything. */
  lemma {:induction false} Finished(w: World, stack: seq<Frame>, dev: nat)
    requires |stack| == 1 && stack[0].todo == []
    ensures After(w, stack, dev) == []
  {
  }

  /** The levels of a walk fit together: directories on the way down are all different, and each path
      continues the one above. */
  ghost predicate Stacked(w: World, stack: seq<Frame>) {
    && 0 < |stack| <= 32768 && stack[0].free == w.dirs
    && (forall e {:trigger Continues(stack, e)} :: 0 < e < |stack| ==> Continues(stack, e))
    && (forall e :: 0 <= e < |stack| ==> GoodNames(stack[e].todo))
  }

  predicate Continues(stack: seq<Frame>, e: nat)
    requires 0 < e < |stack|
  {
    && stack[e - 1].id in stack[e - 1].free
    && stack[e].free == stack[e - 1].free - {stack[e - 1].id}
    && stack[e - 1].here != "" && stack[e - 1].here < stack[e].here && |stack[e - 1].here| <= Kept(stack[e].here)
  }

  /** A path continues the path of its directory, even without a slash at the end. */
  lemma {:induction false} JoinContinues(dir: string, name: string)
    requires dir != "" && GoodName(name)
    ensures dir < Join(dir, name) && |dir| <= Kept(Join(dir, name))
  {
    var p := Join(dir, name);
    assert forall i :: 0 <= i < |dir| ==> p[i] == dir[i];
    assert p[..|dir|] == dir;
  }
}
