/** What the listing of a walk holds (gen/fts.c): every name that is to be shown, once, with the class that stat gives. */
module FtsContents {
  import opened Options
  import opened FtsTree

  /** shown are the names at the places at, which come in order. */
  predicate PickedAt(names: seq<string>, shown: seq<string>, at: seq<nat>) {
    && |at| == |shown| && (forall i :: 0 <= i < |at| ==> at[i] < |names| && shown[i] == names[at[i]])
    && forall i, j :: 0 <= i < j < |at| ==> at[i] < at[j]
  }

  /** Of the names that are there all are shown but "." and "..", in order and as often as they occur, and these two
      only if FTS_SEEDOT is set: at are the places of those shown. */
  lemma {:induction false} ShownAre(w: World, names: seq<string>) returns (at: seq<nat>)
    ensures PickedAt(names, w.Shown(names), at)
    ensures forall k: nat :: k < |names| ==> (k in at <==> w.seedot || (names[k] != "." && names[k] != ".."))
  {
    if names == [] {
      at := [];
    } else {
      var rest := ShownAre(w, names[1..]);
      var head: seq<nat> := if w.seedot || (names[0] != "." && names[0] != "..") then [0] else [];
      at := head + Shifted(rest);
      assert w.Shown(names) == (if head == [] then [] else [names[0]]) + w.Shown(names[1..]);
      hide World.Shown;
      MorePicked(names, w.Shown(names[1..]), rest, head);
      hide PickedAt;
      forall k: nat | k < |names|
        ensures k in at <==> w.seedot || (names[k] != "." && names[k] != "..")
      {
        InShifted(head, rest, k);
        assert k > 0 ==> names[k] == names[1..][k - 1];
      }
    }
  }

  lemma {:induction false} MorePicked(names: seq<string>, shown: seq<string>, rest: seq<nat>, head: seq<nat>)
    requires names != [] && PickedAt(names[1..], shown, rest) && (head == [] || head == [0])
    ensures PickedAt(names, (if head == [] then [] else [names[0]]) + shown, head + Shifted(rest))
  {
    var at, all := head + Shifted(rest), (if head == [] then [] else [names[0]]) + shown;
    forall i | 0 <= i < |at|
      ensures at[i] < |names| && all[i] == names[at[i]] && (i >= |head| ==> at[i] == rest[i - |head|] + 1)
    {
      if i >= |head| {
        assert names[1..][rest[i - |head|]] == names[rest[i - |head|] + 1];
      }
    }
  }

  function Shifted(s: seq<nat>): (r: seq<nat>)
    ensures |r| == |s| && forall i :: 0 <= i < |s| ==> r[i] == s[i] + 1
  {
    seq(|s|, i requires 0 <= i < |s| => s[i] + 1)
  }

  lemma {:induction false} InShifted(head: seq<nat>, rest: seq<nat>, k: nat)
    requires head == [] || head == [0]
    ensures k in head + Shifted(rest) <==> if k == 0 then head != [] else k - 1 in rest
  {
    var at := head + Shifted(rest);
    if k in at {
      var i :| 0 <= i < |at| && at[i] == k;
      assert i >= |head| ==> k == rest[i - |head|] + 1;
    }
    if k > 0 && k - 1 in rest {
      var i :| 0 <= i < |rest| && rest[i] == k - 1;
      assert at[|head| + i] == k;
    }
    if k == 0 && head != [] {
      assert at[0] == 0;
    }
  }

  /** The path of an entry: the path of the directory, one slash, and the name. */
  lemma {:induction false} PathIs(dir: string, name: string, level: nat)
    ensures PathOf(dir, name, level) ==
              if level == 0 then name
              else if dir != "" && dir[|dir| - 1] == '/' then dir + name
              else dir + "/" + name
  {
    if dir != "" && dir[|dir| - 1] == '/' {
      assert dir[..|dir| - 1] + "/" == dir;
    }
  }

  /** The class of an entry, by what stat or lstat says; as arguments "." and ".." are directories like others. */
  predicate ClassFits(w: World, path: string, name: string, info: Info, level: nat) {
    var follows := w.logical || (level == 0 && w.comfollow);
    match if follows then w.stat(path) else w.lstat(path)
    case Regular => info == F
    case Symlink => info == SL
    case Other => info == DEFAULT
    case Missing => info == if follows && w.lstat(path) != Missing then SLNONE else NS
    case Dir(_) => if level > 0 && (name == "." || name == "..") then info == DOT else info == D || info == DC
  }

  lemma {:induction false} ClassIs(w: World, dir: string, name: string, free: set<Id>, level: nat)
    ensures ClassFits(w, PathOf(dir, name, level), name, w.InfoOf(dir, name, free, level), level)
  {
  }

  /** The first visits on a level. */
  function FirstVisits(es: seq<Event>, level: nat): seq<Event> {
    if es == [] then []
    else
      (if es[0].Event? && es[0].level == level && es[0].info != DP && es[0].info != DNR then [es[0]] else [])
      + FirstVisits(es[1..], level)
  }

  lemma {:induction false} FirstVisitsBoth(a: seq<Event>, b: seq<Event>, level: nat)
    ensures FirstVisits(a + b, level) == FirstVisits(a, level) + FirstVisits(b, level)
  {
    if a == [] {
      assert a + b == b;
    } else {
      assert (a + b)[1..] == a[1..] + b;
      FirstVisitsBoth(a[1..], b, level);
    }
  }

  lemma {:induction false} FirstVisitsDeep(es: seq<Event>, level: nat)
    requires Deep(es, level + 1)
    ensures FirstVisits(es, level) == []
  {
    if es != [] {
      assert es[0].level > level;
      FirstVisitsDeep(es[1..], level);
    }
  }

  lemma {:induction false} FirstVisitsOne(e: Event, level: nat)
    ensures FirstVisits([e], level) ==
              if e.Event? && e.level == level && e.info != DP && e.info != DNR then [e] else []
  {
    assert [e][1..] == [];
  }

  /** The first visits of the entries of a directory: one for each name, in their order. */
  ghost predicate Entries(w: World, es: seq<Event>, dir: string, names: seq<string>, free: set<Id>, level: nat) {
    |es| == |names| && forall m :: 0 <= m < |es| ==>
      es[m] == Event(w.InfoOf(dir, names[m], free, level), PathOf(dir, names[m], level), level)
  }

  lemma {:induction false} VisitOnce(w: World, dir: string, name: string, free: set<Id>, level: nat, dev: nat)
    requires w.Valid() && (level == 0 ==> free == w.dirs) && StopFree(w.Visit(dir, name, free, level, dev))
    ensures FirstVisits(w.Visit(dir, name, free, level, dev), level) ==
              [Event(w.InfoOf(dir, name, free, level), PathOf(dir, name, level), level)]
  {
    var path, info := PathOf(dir, name, level), w.InfoOf(dir, name, free, level);
    var first := Event(info, path, level);
    FirstVisitsOne(first, level);
    if w.Enters(dir, name, free, level) {
      var id := w.StatAt(dir, name, level).id;
      var dev' := if level == 0 then id.dev else dev;
      var inside := w.Inside(path, id, free, level, dev');
      StopFreeBoth([first], inside);
      NothingOnLevel(w, path, id, free, level, dev');
      FirstVisitsBoth([first], inside, level);
    }
  }

  lemma {:induction false} NothingOnLevel(w: World, path: string, id: Id, free: set<Id>, level: nat, dev: nat)
    requires w.Valid() && id in free && StopFree(w.Inside(path, id, free, level, dev))
    ensures FirstVisits(w.Inside(path, id, free, level, dev), level) == []
  {
    var es := w.Inside(path, id, free, level, dev);
    if (w.xdev && id.dev != dev) || w.readdir(path) == None || level == 32767 || w.Shown(w.readdir(path).value) == [] {
      assert es == [es[0]];
      FirstVisitsOne(es[0], level);
    } else {
      var inner := w.VisitAll(path, w.Shown(w.readdir(path).value), free - {id}, level + 1, dev);
      var last := [Event(DP, path, level)];
      StopFreeBoth(inner, last);
      w.Paired(path, w.Shown(w.readdir(path).value), free - {id}, level + 1, dev);
      FirstVisitsDeep(inner, level);
      FirstVisitsBoth(inner, last, level);
      FirstVisitsOne(last[0], level);
    }
  }

  lemma {:induction false} EntriesOnce(w: World, dir: string, names: seq<string>, free: set<Id>, level: nat, dev: nat)
    requires w.Valid() && (level == 0 ==> free == w.dirs) && StopFree(w.VisitAll(dir, names, free, level, dev))
    ensures Entries(w, FirstVisits(w.VisitAll(dir, names, free, level, dev), level), dir, names, free, level)
  {
    hide World.Visit, World.Valid, World.InfoOf;
    if names != [] {
      var v, rest := w.Visit(dir, names[0], free, level, dev), w.VisitAll(dir, names[1..], free, level, dev);
      StopFreeBoth(v, rest);
      EntriesOnce(w, dir, names[1..], free, level, dev);
      VisitOnce(w, dir, names[0], free, level, dev);
      FirstVisitsBoth(v, rest, level);
    }
  }

  /** What stands between the visits before and behind a directory: nothing if it cannot be read or is on another
      device than the root and FTS_XDEV is set, and otherwise one first visit for every name that is to be shown, in
      their order, on the next level and with its class, and deeper events. */
  ghost predicate Inhabited(w: World, e: Event, inner: seq<Event>, dev: nat)
    requires e.Event?
  {
    var s := w.StatOf(e.path, e.level == 0 && w.comfollow);
    match w.readdir(e.path)
    case None => inner == []
    case Some(all) =>
      if w.xdev && e.level > 0 && s.Dir? && s.id.dev != dev then inner == []
      else
        var names, visits := w.Shown(all), FirstVisits(inner, e.level + 1);
        && |visits| == |names|
        && forall m :: 0 <= m < |visits| ==>
             && visits[m].Event? && visits[m].path == Join(e.path, names[m]) && visits[m].level == e.level + 1
             && ClassFits(w, visits[m].path, names[m], visits[m].info, e.level + 1)
  }

  /** If event k is the visit before a directory, its end is there, and between them is what should be. */
  ghost predicate Housed(w: World, es: seq<Event>, k: nat, dev: nat)
    requires k < |es|
  {
    es[k].Event? && es[k].info == D ==> exists j: nat :: HousedUntil(w, es, k, j, dev)
  }

  ghost predicate HousedUntil(w: World, es: seq<Event>, k: nat, j: nat, dev: nat) {
    Closes(es, k, j) && Inhabited(w, es[k], es[k + 1..j], dev)
  }

  ghost predicate AllHoused(w: World, es: seq<Event>, dev: nat) {
    forall k :: 0 <= k < |es| ==> Housed(w, es, k, dev)
  }

  lemma {:induction false} HousedWithin(w: World, a: seq<Event>, b: seq<Event>, c: seq<Event>, m: nat, dev: nat)
    requires m < |b| && Housed(w, b, m, dev)
    ensures Housed(w, a + b + c, |a| + m, dev)
  {
    var es := a + b + c;
    assert es[|a| + m] == b[m];
    if b[m].Event? && b[m].info == D {
      var j: nat :| HousedUntil(w, b, m, j, dev);
      ClosesWithin(a, b, c, m, j);
      assert es[|a| + m + 1..|a| + j] == b[m + 1..j];
      hide Inhabited, Closes;
      assert HousedUntil(w, es, |a| + m, |a| + j, dev);
    }
  }

  lemma {:induction false} HousedBoth(w: World, a: seq<Event>, b: seq<Event>, dev: nat)
    requires AllHoused(w, a, dev) && AllHoused(w, b, dev)
    ensures AllHoused(w, a + b, dev)
  {
    hide Housed;
    var es := a + b;
    assert [] + a + b == es && a + b + [] == es;
    forall k | 0 <= k < |es|
      ensures Housed(w, es, k, dev)
    {
      if k < |a| {
        HousedWithin(w, [], a, b, k, dev);
      } else {
        HousedWithin(w, a, b, [], k - |a|, dev);
      }
    }
  }

  lemma {:induction false} HousedDirectory(w: World, first: Event, inner: seq<Event>, last: Event, dev: nat)
    requires first.Event? && last.Event? && first.info == D && last.info in {DP, DNR} && last.level == first.level
    requires last.path == first.path || last.path == first.path[..Kept(first.path)]
    requires Deep(inner, first.level + 1) && AllHoused(w, inner, dev) && Inhabited(w, first, inner, dev)
    ensures AllHoused(w, [first] + inner + [last], dev)
  {
    hide *;
    var es := [first] + inner + [last];
    EndsHoused(w, first, inner, last, dev);
    HousedAt(w, inner, dev);
    forall k | 0 <= k < |es|
      ensures Housed(w, es, k, dev)
    {
      if 0 < k < |es| - 1 {
        HousedWithin(w, [first], inner, [last], k - 1, dev);
      }
    }
    HousedFrom(w, es, dev);
  }

  lemma {:induction false} HousedAt(w: World, es: seq<Event>, dev: nat)
    requires AllHoused(w, es, dev)
    ensures forall k :: 0 <= k < |es| ==> Housed(w, es, k, dev)
  {
  }

  lemma {:induction false} HousedFrom(w: World, es: seq<Event>, dev: nat)
    requires forall k :: 0 <= k < |es| ==> Housed(w, es, k, dev)
    ensures AllHoused(w, es, dev)
  {
  }

  lemma {:induction false} EndsHoused(w: World, first: Event, inner: seq<Event>, last: Event, dev: nat)
    requires first.Event? && last.Event? && first.info == D && last.info in {DP, DNR} && last.level == first.level
    requires last.path == first.path || last.path == first.path[..Kept(first.path)]
    requires Deep(inner, first.level + 1) && Inhabited(w, first, inner, dev)
    ensures var es := [first] + inner + [last]; Housed(w, es, 0, dev) && Housed(w, es, |es| - 1, dev)
  {
    var es := [first] + inner + [last];
    Bracket(first, inner, last);
    assert es[1..|es| - 1] == inner && es[0] == first && es[|es| - 1] == last;
    hide Inhabited, Deep, Closes;
    assert HousedUntil(w, es, 0, |es| - 1, dev);
  }

  /** The directory is on the device of the root, which it is if it is the root, or FTS_XDEV is not set. */
  predicate SameDevice(w: World, id: Id, level: nat, dev: nat) {
    !w.xdev || id.dev == dev || level == 0
  }

  lemma {:induction false} DirectoryHoused(w: World, path: string, id: Id, free: set<Id>, level: nat, dev: nat)
    requires w.Valid() && id in free && w.StatOf(path, level == 0 && w.comfollow) == Dir(id)
    requires level == 0 ==> dev == id.dev
    requires StopFree(w.Inside(path, id, free, level, dev))
    ensures AllHoused(w, [Event(D, path, level)] + w.Inside(path, id, free, level, dev), dev)
    decreases free, 0, 0
  {
    var first := Event(D, path, level);
    var es := w.Inside(path, id, free, level, dev);
    if (w.xdev && id.dev != dev) || w.readdir(path) == None || level == 32767 || w.Shown(w.readdir(path).value) == [] {
      assert |es| == 1 && es[0].Event?;
      HousedDirectory(w, first, [], es[0], dev);
      assert [first] + [] + [es[0]] == [first] + es;
    } else {
      var names := w.Shown(w.readdir(path).value);
      var inner := w.VisitAll(path, names, free - {id}, level + 1, dev);
      var last := Event(DP, path, level);
      StopFreeBoth(inner, [last]);
      w.Paired(path, names, free - {id}, level + 1, dev);
      Contents(w, path, names, free - {id}, level + 1, dev);
      EntriesOnce(w, path, names, free - {id}, level + 1, dev);
      EntriesFit(w, first, id, inner, names, free - {id}, dev);
      HousedDirectory(w, first, inner, last, dev);
      assert [first] + inner + [last] == [first] + es;
    }
  }

  lemma {:induction false} EntriesFit(w: World, first: Event, id: Id, inner: seq<Event>, names: seq<string>, free: set<Id>, dev: nat)
    requires first.Event? && w.StatOf(first.path, first.level == 0 && w.comfollow) == Dir(id)
    requires SameDevice(w, id, first.level, dev) && w.readdir(first.path).Some? && names == w.Shown(w.readdir(first.path).value)
    requires Entries(w, FirstVisits(inner, first.level + 1), first.path, names, free, first.level + 1)
    ensures Inhabited(w, first, inner, dev)
  {
    hide World.InfoOf, FirstVisits, World.Shown;
    forall m | 0 <= m < |names|
      ensures ClassFits(w, PathOf(first.path, names[m], first.level + 1), names[m], w.InfoOf(first.path, names[m], free, first.level + 1),
                        first.level + 1)
    {
      ClassIs(w, first.path, names[m], free, first.level + 1);
    }
  }

  lemma {:induction false} VisitHoused(w: World, dir: string, name: string, free: set<Id>, level: nat, dev: nat)
    requires w.Valid() && (level == 0 ==> free == w.dirs) && StopFree(w.Visit(dir, name, free, level, dev))
    requires level == 0 && w.Enters(dir, name, free, level) ==> dev == w.StatAt(dir, name, level).id.dev
    ensures AllHoused(w, w.Visit(dir, name, free, level, dev), dev)
    decreases free, 1, 0
  {
    var path, info := PathOf(dir, name, level), w.InfoOf(dir, name, free, level);
    var first := Event(info, path, level);
    if w.Enters(dir, name, free, level) {
      var id := w.StatAt(dir, name, level).id;
      StopFreeBoth([first], w.Inside(path, id, free, level, dev));
      DirectoryHoused(w, path, id, free, level, dev);
    } else {
      NotEntered(w, dir, name, free, level);
      assert w.Visit(dir, name, free, level, dev) == [first];
    }
  }

  /** What is not entered is no directory, or above itself, or "." or "..". */
  lemma {:induction false} NotEntered(w: World, dir: string, name: string, free: set<Id>, level: nat)
    requires w.Valid() && (level == 0 ==> free == w.dirs) && !w.Enters(dir, name, free, level)
    ensures w.InfoOf(dir, name, free, level) != D
  {
    assert w.Answers(PathOf(dir, name, level));
  }

  /** Below a root every directory that is entered has all its entries, each once, with their classes. */
  lemma {:induction false} Contents(w: World, dir: string, names: seq<string>, free: set<Id>, level: nat, dev: nat)
    requires w.Valid() && level > 0 && StopFree(w.VisitAll(dir, names, free, level, dev))
    ensures AllHoused(w, w.VisitAll(dir, names, free, level, dev), dev)
    decreases free, 2, |names|
  {
    hide World.Visit, World.Valid, AllHoused;
    if names != [] {
      var v, rest := w.Visit(dir, names[0], free, level, dev), w.VisitAll(dir, names[1..], free, level, dev);
      StopFreeBoth(v, rest);
      Contents(w, dir, names[1..], free, level, dev);
      VisitHoused(w, dir, names[0], free, level, dev);
      HousedBoth(w, v, rest, dev);
    } else {
      NoneHoused(w, dev);
    }
  }

  lemma {:induction false} NoneHoused(w: World, dev: nat)
    ensures AllHoused(w, [], dev)
  {
  }

  /** A root is visited with everything in it. */
  lemma {:induction false} RootContents(w: World, arg: string)
    requires w.Valid() && StopFree(w.Visit("", arg, w.dirs, 0, 0))
    ensures exists dev :: AllHoused(w, w.Visit("", arg, w.dirs, 0, 0), dev)
    ensures w.Enters("", arg, w.dirs, 0) ==> AllHoused(w, w.Visit("", arg, w.dirs, 0, 0), w.StatAt("", arg, 0).id.dev)
  {
    var dev := if w.Enters("", arg, w.dirs, 0) then w.StatAt("", arg, 0).id.dev else 0;
    RootDevice(w, arg, dev);
    VisitHoused(w, "", arg, w.dirs, 0, dev);
  }

  /** The device of a root does not depend on what came before it. */
  lemma {:induction false} RootDevice(w: World, arg: string, dev: nat)
    ensures w.Visit("", arg, w.dirs, 0, dev) == w.Visit("", arg, w.dirs, 0, 0)
  {
  }

  /** The events for one argument after the other, each with the directories in it inhabited, and each argument once,
      with its class. */
  ghost predicate Walked(w: World, es: seq<Event>, args: seq<string>) {
    if args == [] then es == []
    else
      exists k: nat, dev :: k <= |es| && AllHoused(w, es[..k], dev) && Walked(w, es[k..], args[1..])
        && (exists info :: FirstVisits(es[..k], 0) == [Event(info, args[0], 0)] && ClassFits(w, args[0], args[0], info, 0))
  }

  lemma {:induction false} ListingContents(w: World, args: seq<string>)
    requires w.Valid() && StopFree(w.Listing(args))
    ensures Walked(w, w.Listing(args), args)
    decreases |args|
  {
    hide World.Visit, World.Valid, AllHoused;
    if args != [] {
      var v, rest := w.Visit("", args[0], w.dirs, 0, 0), w.VisitAll("", args[1..], w.dirs, 0, 0);
      var es := w.Listing(args);
      assert es == v + rest && es[..|v|] == v && es[|v|..] == rest && rest == w.Listing(args[1..]);
      StopFreeBoth(v, rest);
      ListingContents(w, args[1..]);
      RootContents(w, args[0]);
      VisitOnce(w, "", args[0], w.dirs, 0, 0);
      ClassIs(w, "", args[0], w.dirs, 0);
      var dev :| AllHoused(w, v, dev);
      assert AllHoused(w, es[..|v|], dev);
    }
  }

  /** The directories that are entered and not left, when e has been seen. */
  function Above(st: seq<Event>, e: Event): seq<Event> {
    if !e.Event? then st
    else if e.info == D then st + [e]
    else if (e.info == DP || e.info == DNR) && st != [] then st[..|st| - 1]
    else st
  }

  function AboveAll(st: seq<Event>, es: seq<Event>): seq<Event>
    decreases |es|
  {
    if es == [] then st else AboveAll(Above(st, es[0]), es[1..])
  }

  lemma {:induction false} AboveBoth(st: seq<Event>, a: seq<Event>, b: seq<Event>)
    ensures AboveAll(st, a + b) == AboveAll(AboveAll(st, a), b)
    decreases |a|
  {
    if a == [] {
      assert a + b == b;
    } else {
      assert (a + b)[1..] == a[1..] + b;
      AboveBoth(Above(st, a[0]), a[1..], b);
    }
  }

  /** What stat says of an event. */
  function StatOfEvent(w: World, e: Event): Stat
    requires e.Event?
  {
    w.StatOf(e.path, e.level == 0 && w.comfollow)
  }

  /** A directory is entered if it is none of those above it, and is a cycle if it is. */
  ghost predicate CycleFits(w: World, st: seq<Event>, e: Event) {
    e.Event? && (e.info == D || e.info == DC) ==>
      && StatOfEvent(w, e).Dir?
      && (e.info == D <==> forall k :: 0 <= k < |st| ==> st[k].Event? && StatOfEvent(w, st[k]) != StatOfEvent(w, e))
  }

  ghost predicate CyclesFit(w: World, st: seq<Event>, es: seq<Event>)
    decreases |es|
  {
    es == [] || (CycleFits(w, st, es[0]) && CyclesFit(w, Above(st, es[0]), es[1..]))
  }

  lemma {:induction false} CyclesBoth(w: World, st: seq<Event>, a: seq<Event>, b: seq<Event>)
    ensures CyclesFit(w, st, a + b) <==> CyclesFit(w, st, a) && CyclesFit(w, AboveAll(st, a), b)
    decreases |a|
  {
    hide CycleFits, Above;
    if a == [] {
      assert a + b == b;
    } else {
      assert (a + b)[1..] == a[1..] + b && (a + b)[0] == a[0];
      CyclesBoth(w, Above(st, a[0]), a[1..], b);
    }
  }

  lemma {:induction false} CyclesOne(w: World, st: seq<Event>, e: Event)
    ensures CyclesFit(w, st, [e]) <==> CycleFits(w, st, e)
    ensures AboveAll(st, [e]) == Above(st, e)
  {
    assert [e][1..] == [];
  }

  /** The directories that are not free are those above. */
  ghost predicate FreeOf(w: World, st: seq<Event>, free: set<Id>) {
    && (forall k :: 0 <= k < |st| ==> st[k].Event?)
    && forall id :: id in w.dirs ==> (id in free <==> forall k :: 0 <= k < |st| ==> StatOfEvent(w, st[k]) != Dir(id))
  }

  lemma {:induction false} FreeLess(w: World, st: seq<Event>, free: set<Id>, e: Event, id: Id)
    requires FreeOf(w, st, free) && e.Event? && StatOfEvent(w, e) == Dir(id)
    ensures FreeOf(w, st + [e], free - {id})
  {
    forall x | x in w.dirs
      ensures x in free - {id} <==> forall k :: 0 <= k < |st + [e]| ==> StatOfEvent(w, (st + [e])[k]) != Dir(x)
    {
      assert (st + [e])[|st|] == e;
      assert forall k :: 0 <= k < |st| ==> (st + [e])[k] == st[k];
    }
  }

  lemma {:induction false} CycleVisit(w: World, dir: string, name: string, free: set<Id>, level: nat, dev: nat, st: seq<Event>)
    requires w.Valid() && (level == 0 ==> free == w.dirs) && FreeOf(w, st, free)
    requires StopFree(w.Visit(dir, name, free, level, dev))
    ensures CyclesFit(w, st, w.Visit(dir, name, free, level, dev)) && AboveAll(st, w.Visit(dir, name, free, level, dev)) == st
    decreases free, 1, 0
  {
    var path, info := PathOf(dir, name, level), w.InfoOf(dir, name, free, level);
    var first := Event(info, path, level);
    EntryCycle(w, dir, name, free, level, st);
    CyclesOne(w, st, first);
    if w.Enters(dir, name, free, level) {
      var id := w.StatAt(dir, name, level).id;
      var dev' := if level == 0 then id.dev else dev;
      var inside := w.Inside(path, id, free, level, dev');
      StopFreeBoth([first], inside);
      FreeLess(w, st, free, first, id);
      CycleInside(w, path, id, free, level, dev', st + [first]);
      CyclesBoth(w, st, [first], inside);
      AboveBoth(st, [first], inside);
    } else {
      NotEntered(w, dir, name, free, level);
      assert w.Visit(dir, name, free, level, dev) == [first];
      NoEnding(w, dir, name, free, level);
    }
  }

  lemma {:induction false} NoEnding(w: World, dir: string, name: string, free: set<Id>, level: nat)
    ensures w.InfoOf(dir, name, free, level) != DP && w.InfoOf(dir, name, free, level) != DNR
  {
  }

  lemma {:induction false} EntryCycle(w: World, dir: string, name: string, free: set<Id>, level: nat, st: seq<Event>)
    requires w.Valid() && (level == 0 ==> free == w.dirs) && FreeOf(w, st, free)
    ensures CycleFits(w, st, Event(w.InfoOf(dir, name, free, level), PathOf(dir, name, level), level))
  {
    assert w.Answers(PathOf(dir, name, level));
  }

  lemma {:induction false} CycleInside(w: World, path: string, id: Id, free: set<Id>, level: nat, dev: nat, st: seq<Event>)
    requires w.Valid() && id in free && st != [] && FreeOf(w, st, free - {id}) && StopFree(w.Inside(path, id, free, level, dev))
    ensures CyclesFit(w, st, w.Inside(path, id, free, level, dev))
    ensures AboveAll(st, w.Inside(path, id, free, level, dev)) == st[..|st| - 1]
    decreases free, 0, 0
  {
    var es := w.Inside(path, id, free, level, dev);
    if (w.xdev && id.dev != dev) || w.readdir(path) == None || level == 32767 || w.Shown(w.readdir(path).value) == [] {
      assert es == [es[0]] && es[0].Event? && (es[0].info == DP || es[0].info == DNR);
      CyclesOne(w, st, es[0]);
    } else {
      var names := w.Shown(w.readdir(path).value);
      var inner := w.VisitAll(path, names, free - {id}, level + 1, dev);
      var last := Event(DP, path, level);
      StopFreeBoth(inner, [last]);
      CycleExact(w, path, names, free - {id}, level + 1, dev, st);
      CyclesOne(w, st, last);
      CyclesBoth(w, st, inner, [last]);
      AboveBoth(st, inner, [last]);
    }
  }

  /** Everywhere in a walk a directory is entered exactly if no directory above it is the same. */
  lemma {:induction false} CycleExact(w: World, dir: string, names: seq<string>, free: set<Id>, level: nat, dev: nat, st: seq<Event>)
    requires w.Valid() && (level == 0 ==> free == w.dirs) && FreeOf(w, st, free)
    requires StopFree(w.VisitAll(dir, names, free, level, dev))
    ensures CyclesFit(w, st, w.VisitAll(dir, names, free, level, dev)) && AboveAll(st, w.VisitAll(dir, names, free, level, dev)) == st
    decreases free, 2, |names|
  {
    hide World.Visit, World.Valid, FreeOf;
    if names != [] {
      var v, rest := w.Visit(dir, names[0], free, level, dev), w.VisitAll(dir, names[1..], free, level, dev);
      StopFreeBoth(v, rest);
      CycleVisit(w, dir, names[0], free, level, dev, st);
      CycleExact(w, dir, names[1..], free, level, dev, st);
      CyclesBoth(w, st, v, rest);
      AboveBoth(st, v, rest);
    }
  }

  /** For the whole walk, from the start on. */
  lemma {:induction false} ListingCycles(w: World, args: seq<string>)
    requires w.Valid() && StopFree(w.Listing(args))
    ensures CyclesFit(w, [], w.Listing(args)) && AboveAll([], w.Listing(args)) == []
  {
    CycleExact(w, "", args, w.dirs, 0, 0, []);
  }
}
