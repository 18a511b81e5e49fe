/** What a file hierarchy looks like to fts (gen/fts.c), and the order in which it is to be walked. */
module FtsTree {
  import opened Options

  datatype Id = Id(dev: nat, ino: nat)

  datatype Stat = Missing | Dir(id: Id) | Symlink | Regular | Other

  /** The values of fts_info. */
  datatype Info = D | DC | DEFAULT | DNR | DOT | DP | ERR | F | INIT | NS | SL | SLNONE

  /** What one read returns: a node, or an end because the hierarchy is too deep (SHRT_MAX levels). */
  datatype Event = Event(info: Info, path: string, level: nat) | Stop

  predicate GoodName(n: string) {
    n != "" && '\0' !in n
  }

  predicate GoodNames(ns: seq<string>) {
    forall i :: 0 <= i < |ns| ==> GoodName(ns[i])
  }

  predicate IsDot(name: string) {
    name == "." || name == ".."
  }

  /** The length up to which a path is kept when a name is appended (NAPPEND). */
  function Kept(path: string): (k: nat)
    ensures k <= |path|
  {
    if path != "" && path[|path| - 1] == '/' then |path| - 1 else |path|
  }

  /** The last slash in the first k characters, or -1 (`strrchr`). */
  function LastSlash(s: string, k: nat): (i: int)
    requires k <= |s|
    ensures -1 <= i < k && (i >= 0 ==> s[i] == '/')
  {
    if k == 0 then -1 else if s[k - 1] == '/' then k - 1 else LastSlash(s, k - 1)
  }

  /** The name that is left of the argument for a root when it is visited. */
  function LastPart(arg: string): string {
    var i := LastSlash(arg, |arg|);
    if i >= 0 && (i > 0 || |arg| > 1) then arg[i + 1..] else arg
  }

  /** The path of an entry of a directory. */
  function Join(dir: string, name: string): string {
    dir[..Kept(dir)] + "/" + name
  }

  /** The path of an entry at some level; at level 0 are the arguments of fts_open. */
  function PathOf(dir: string, name: string, level: nat): string {
    if level == 0 then name else Join(dir, name)
  }

  /** A file system, which answers `stat`, `lstat` and reading a directory, by path, and does not
      change; and the options of a walk (FTS_NOCHDIR is always on). */
  datatype World = World(stat: string -> Stat, lstat: string -> Stat, readdir: string -> Option<seq<string>>,
                         dirs: set<Id>, logical: bool, comfollow: bool, seedot: bool, xdev: bool)
  {
    /** There are finitely many directories, and the names in them are non-empty C strings. */
    ghost predicate Valid() {
      forall p {:trigger Answers(p)} :: Answers(p)
    }

    predicate Answers(p: string) {
      && (stat(p).Dir? ==> stat(p).id in dirs)
      && (lstat(p).Dir? ==> lstat(p).id in dirs)
      && (readdir(p).Some? ==> GoodNames(readdir(p).value))
    }

    /** What `fts_stat` asks the file system. */
    function StatOf(path: string, follow: bool): Stat {
      if logical || follow then stat(path) else lstat(path)
    }

    /** What `fts_stat` makes of the answer, where `free` are the directories that are not above. */
    function Classify(path: string, name: string, free: set<Id>, follow: bool): Info {
      match StatOf(path, follow)
      case Missing => if (logical || follow) && lstat(path) != Missing then SLNONE else NS
      case Dir(id) => if IsDot(name) then DOT else if id in free then D else DC
      case Symlink => SL
      case Regular => F
      case Other => DEFAULT
    }

    function StatAt(dir: string, name: string, level: nat): Stat {
      StatOf(PathOf(dir, name, level), level == 0 && comfollow)
    }

    /** How an entry is classified; "." and ".." as arguments are real directories. */
    function InfoOf(dir: string, name: string, free: set<Id>, level: nat): Info {
      var info := Classify(PathOf(dir, name, level), name, free, level == 0 && comfollow);
      if level == 0 && info == DOT then D else info
    }

    /** The names that are shown of those that are there. */
    function Shown(names: seq<string>): seq<string> {
      if names == [] then []
      else (if !seedot && IsDot(names[0]) then [] else [names[0]]) + Shown(names[1..])
    }

    /** An entry is a directory to go into. */
    predicate Enters(dir: string, name: string, free: set<Id>, level: nat) {
      && InfoOf(dir, name, free, level) == D
      && StatAt(dir, name, level).Dir? && StatAt(dir, name, level).id in free
    }

    /** The walk over some entries of a directory, one after the other.  `dev` is the device of the
        root, if this is below one. */
    function VisitAll(dir: string, names: seq<string>, free: set<Id>, level: nat, dev: nat): seq<Event>
      decreases free, 1, |names|
    {
      if names == [] then []
      else Visit(dir, names[0], free, level, dev) + VisitAll(dir, names[1..], free, level, dev)
    }

    function Visit(dir: string, name: string, free: set<Id>, level: nat, dev: nat): seq<Event>
      decreases free, 1, 0
    {
      var path := PathOf(dir, name, level);
      [Event(InfoOf(dir, name, free, level), path, level)] +
      if !Enters(dir, name, free, level) then []
      else
        var id := StatAt(dir, name, level).id;
        Inside(path, id, free, level, if level == 0 then id.dev else dev)
    }

    /** What follows the preorder visit of a directory, up to its postorder visit. */
    function Inside(path: string, id: Id, free: set<Id>, level: nat, dev: nat): seq<Event>
      requires id in free
      decreases free, 0, 0
    {
      if xdev && id.dev != dev then [Event(DP, path, level)]
      else match readdir(path)
        case None => [Event(DNR, path, level)]
        case Some(all) =>
          if level == 32767 then [Stop]
          else if Shown(all) == [] then [Event(DP, path[..Kept(path)], level)]
          else VisitAll(path, Shown(all), free - {id}, level + 1, dev) + [Event(DP, path, level)]
    }

    /** The whole walk. */
    function Listing(args: seq<string>): seq<Event> {
      VisitAll("", args, dirs, 0, 0)
    }

    /** On a chain of directories of which no two are the same, the level is less than the number of
        directories.  So a walk of fewer than 32768 directories is never stopped, cycles or not. */
    lemma {:induction false} NeverStopped(dir: string, names: seq<string>, free: set<Id>, level: nat, dev: nat)
      requires level + |free| <= 32767
      ensures StopFree(VisitAll(dir, names, free, level, dev))
      decreases free, 1, |names|
    {
      if names != [] {
        if Enters(dir, names[0], free, level) {
          var id := StatAt(dir, names[0], level).id;
          NeverStoppedInside(PathOf(dir, names[0], level), id, free, level, if level == 0 then id.dev else dev);
        }
        NeverStopped(dir, names[1..], free, level, dev);
      }
    }

    lemma {:induction false} NeverStoppedInside(path: string, id: Id, free: set<Id>, level: nat, dev: nat)
      requires id in free && level + |free| <= 32767
      ensures StopFree(Inside(path, id, free, level, dev))
      decreases free, 0, 0
    {
      if readdir(path).Some? {
        assert level < 32767 by {
          assert |free - {id}| == |free| - 1;
        }
        NeverStopped(path, Shown(readdir(path).value), free - {id}, level + 1, dev);
      }
    }

    /** Unless it is stopped, a walk visits every directory that it enters before what is in it, and visits it again
        or reports it as unreadable behind that, on the same level and under the same path; and it does so only for
        directories that it entered. */
    lemma {:induction false} Paired(dir: string, names: seq<string>, free: set<Id>, level: nat, dev: nat)
      requires Valid() && (level == 0 ==> free == dirs)
      requires StopFree(VisitAll(dir, names, free, level, dev))
      ensures Nested(VisitAll(dir, names, free, level, dev)) && Deep(VisitAll(dir, names, free, level, dev), level)
      decreases free, 2, |names|
    {
      hide Valid, Visit, Nested;
      if names != [] {
        var v, rest := Visit(dir, names[0], free, level, dev), VisitAll(dir, names[1..], free, level, dev);
        StopFreeBoth(v, rest);
        Paired(dir, names[1..], free, level, dev);
        PairedVisit(dir, names[0], free, level, dev);
        NestedBoth(v, rest);
      } else {
        NestedNone();
      }
    }

    lemma {:induction false} PairedVisit(dir: string, name: string, free: set<Id>, level: nat, dev: nat)
      requires Valid() && (level == 0 ==> free == dirs)
      requires StopFree(Visit(dir, name, free, level, dev))
      ensures Nested(Visit(dir, name, free, level, dev)) && Deep(Visit(dir, name, free, level, dev), level)
      decreases free, 1, 0
    {
      var path, info := PathOf(dir, name, level), InfoOf(dir, name, free, level);
      var first := Event(info, path, level);
      assert Answers(path);
      if info == D {
        assert Enters(dir, name, free, level);
        var id := StatAt(dir, name, level).id;
        var dev' := if level == 0 then id.dev else dev;
        StopFreeBoth([first], Inside(path, id, free, level, dev'));
        PairedInside(path, id, free, level, dev');
      } else {
        assert Visit(dir, name, free, level, dev) == [first];
        NestedOne(first);
      }
    }

    lemma {:induction false} PairedInside(path: string, id: Id, free: set<Id>, level: nat, dev: nat)
      requires Valid() && id in free && StopFree(Inside(path, id, free, level, dev))
      ensures var es := [Event(D, path, level)] + Inside(path, id, free, level, dev); Nested(es) && Deep(es, level)
      decreases free, 0, 0
    {
      var first := Event(D, path, level);
      if (xdev && id.dev != dev) || readdir(path) == None || level == 32767 || Shown(readdir(path).value) == [] {
        var es := Inside(path, id, free, level, dev);
        assert |es| == 1 && es[0].Event?;
        NestedNone();
        NestedDirectory(first, [], es[0]);
        assert [first] + [] + [es[0]] == [first] + es;
      } else {
        var es := VisitAll(path, Shown(readdir(path).value), free - {id}, level + 1, dev);
        var last := Event(DP, path, level);
        StopFreeBoth(es, [last]);
        Paired(path, Shown(readdir(path).value), free - {id}, level + 1, dev);
        NestedDirectory(first, es, last);
        assert [first] + es + [last] == [first] + (es + [last]);
      }
    }
  }

  /** Nothing is above the level. */
  predicate Deep(es: seq<Event>, level: nat) {
    forall i :: 0 <= i < |es| ==> es[i].Event? && es[i].level >= level
  }

  /** Event j ends what event i begins: the visit of a directory, with only deeper events between them. */
  predicate Closes(es: seq<Event>, i: nat, j: nat) {
    && i < j < |es| && es[i].Event? && es[j].Event? && es[i].info == D && es[j].info in {DP, DNR}
    && es[j].level == es[i].level && (es[j].path == es[i].path || es[j].path == es[i].path[..Kept(es[i].path)])
    && forall m :: i < m < j ==> es[m].Event? && es[m].level > es[i].level
  }

  ghost predicate Ended(es: seq<Event>, i: nat) {
    exists j :: Closes(es, i, j)
  }

  ghost predicate Begun(es: seq<Event>, j: nat) {
    exists i :: Closes(es, i, j)
  }

  /** The event has its counterpart, if it is the visit before or after a directory. */
  ghost predicate Matched(es: seq<Event>, k: nat)
    requires k < |es|
  {
    es[k].Event? ==> (es[k].info == D ==> Ended(es, k)) && (es[k].info in {DP, DNR} ==> Begun(es, k))
  }

  /** Every visit before a directory has its end, and every end its beginning. */
  ghost predicate Nested(es: seq<Event>) {
    forall k :: 0 <= k < |es| ==> Matched(es, k)
  }

  lemma {:induction false} NestedNone()
    ensures Nested([])
  {
  }

  lemma {:induction false} NestedOne(e: Event)
    requires e.Event? && e.info != D && e.info !in {DP, DNR}
    ensures Nested([e])
  {
  }

  /** What closes within b does so within a + b + c. */
  lemma {:induction false} ClosesWithin(a: seq<Event>, b: seq<Event>, c: seq<Event>, i: nat, j: nat)
    requires Closes(b, i, j)
    ensures Closes(a + b + c, |a| + i, |a| + j)
  {
    var es := a + b + c;
    assert forall m :: 0 <= m < |b| ==> es[|a| + m] == b[m];
    forall m | |a| + i < m < |a| + j
      ensures es[m].Event? && es[m].level > es[|a| + i].level
    {
      assert es[m] == b[m - |a|];
    }
  }

  lemma {:induction false} MatchedWithin(a: seq<Event>, b: seq<Event>, c: seq<Event>, m: nat)
    requires m < |b| && Matched(b, m)
    ensures Matched(a + b + c, |a| + m)
  {
    hide Closes;
    assert (a + b + c)[|a| + m] == b[m];
    if Ended(b, m) {
      var j :| Closes(b, m, j);
      ClosesWithin(a, b, c, m, j);
    }
    if Begun(b, m) {
      var i :| Closes(b, i, m);
      ClosesWithin(a, b, c, i, m);
    }
  }

  lemma {:induction false} NestedBoth(a: seq<Event>, b: seq<Event>)
    requires Nested(a) && Nested(b)
    ensures Nested(a + b)
  {
    var es := a + b;
    assert [] + a + b == es && a + b + [] == es;
    hide Matched;
    forall k | 0 <= k < |es|
      ensures Matched(es, k)
    {
      if k < |a| {
        MatchedWithin([], a, b, k);
      } else {
        MatchedWithin(a, b, [], k - |a|);
      }
    }
  }

  lemma {:induction false} NestedDirectory(first: Event, inner: seq<Event>, last: Event)
    requires first.Event? && last.Event? && first.info == D && last.info in {DP, DNR} && last.level == first.level
    requires last.path == first.path || last.path == first.path[..Kept(first.path)]
    requires Nested(inner) && Deep(inner, first.level + 1)
    ensures Nested([first] + inner + [last]) && Deep([first] + inner + [last], first.level)
  {
    var es := [first] + inner + [last];
    Bracket(first, inner, last);
    assert Ended(es, 0) && Begun(es, |es| - 1);
    assert Matched(es, 0) && Matched(es, |es| - 1);
    hide Matched, Kept, Ended, Begun;
    forall k | 0 <= k < |es|
      ensures Matched(es, k)
    {
      if 0 < k < |es| - 1 {
        MatchedWithin([first], inner, [last], k - 1);
      }
    }
  }

  lemma {:induction false} Bracket(first: Event, inner: seq<Event>, last: Event)
    requires first.Event? && last.Event? && first.info == D && last.info in {DP, DNR} && last.level == first.level
    requires last.path == first.path || last.path == first.path[..Kept(first.path)]
    requires Deep(inner, first.level + 1)
    ensures var es := [first] + inner + [last]; Closes(es, 0, |es| - 1) && Deep(es, first.level)
  {
    var es := [first] + inner + [last];
    assert forall m :: 0 < m < |es| - 1 ==> es[m] == inner[m - 1];
  }

  /** The events that are seen: those before the first stop. */
  function UpToStop(es: seq<Event>): seq<Event> {
    if es == [] || es[0] == Stop then [] else [es[0]] + UpToStop(es[1..])
  }

  lemma {:induction false} CutHead(es: seq<Event>)
    ensures UpToStop(es) == if es == [] || es[0] == Stop then [] else [es[0]] + UpToStop(es[1..])
  {
  }

  predicate StopFree(es: seq<Event>) {
    forall i :: 0 <= i < |es| ==> es[i] != Stop
  }

  lemma {:induction false} StopFreeBoth(a: seq<Event>, b: seq<Event>)
    ensures StopFree(a + b) <==> StopFree(a) && StopFree(b)
  {
    if StopFree(a + b) {
      assert forall i :: 0 <= i < |a| ==> a[i] == (a + b)[i];
      assert forall i :: 0 <= i < |b| ==> b[i] == (a + b)[|a| + i];
    }
  }

  lemma {:induction false} NothingCut(es: seq<Event>)
    requires StopFree(es)
    ensures UpToStop(es) == es
  {
    if es != [] {
      NothingCut(es[1..]);
    }
  }
}
