/** The blocking modes of descriptors over whole runs of selecting and deselecting (isc/ev_files.c). */
module EvModes {
  import opened Scan
  import opened EvFileList
  import opened EvThreads
  import opened EvFiles

  /** With before the descriptors that were non-blocking at the start: a registered descriptor is non-blocking and
      its original mode is remembered, and the others have their original modes. */
  ghost predicate Faithful(l: seq<EvFile>, original: map<int, bool>, nonblock: set<int>, before: set<int>) {
    && (forall fd :: Masks(l, 0, fd) != {} ==> fd in nonblock && fd in original && (original[fd] <==> fd in before))
    && (forall fd :: Masks(l, 0, fd) == {} ==> (fd in nonblock <==> fd in before))
  }

  /** Registration makes a descriptor non-blocking and remembers how it was. */
  lemma {:induction false} FaithfulPushed(l: seq<EvFile>, f: EvFile, original: map<int, bool>, nonblock: set<int>,
                                          before: set<int>)
    requires Faithful(l, original, nonblock, before) && f.eventmask != {}
    ensures Masks(l, 0, f.fd) == {} ==>
              Faithful([f] + l, original[f.fd := f.fd in nonblock], nonblock + {f.fd}, before)
    ensures Masks(l, 0, f.fd) != {} ==> Faithful([f] + l, original, nonblock, before)
  {
    var m := [f] + l;
    forall fd
      ensures Masks(m, 0, fd) == (if fd == f.fd then f.eventmask else {}) + Masks(l, 0, fd)
    {
      MasksPushed(l, f, 0, fd);
      MasksStep(m, 0, fd);
    }
    hide Masks;
    var k := f.eventmask;
    assert forall fd :: fd != f.fd ==> Masks(m, 0, fd) == Masks(l, 0, fd);
    assert Masks(m, 0, f.fd) != {} by {
      Joined(k, Masks(l, 0, f.fd));
    }
  }

  lemma {:induction false} Joined(a: set<Kind>, b: set<Kind>)
    requires a != {}
    ensures a + b != {}
  {
    var k :| k in a;
    assert k in a + b;
  }

  /** Withdrawing the last registration of a descriptor that is still open gives it its original mode back. */
  lemma {:induction false} FaithfulWithout(l: seq<EvFile>, p: nat, original: map<int, bool>, nonblock: set<int>,
                                           before: set<int>)
    requires Faithful(l, original, nonblock, before) && p < |l| && l[p].eventmask != {} && l[p].fd in original
    ensures var fd, r := l[p].fd, Without(l, p);
            Faithful(r, original, if Masks(r, 0, fd) == {} && !original[fd] then nonblock - {fd} else nonblock, before)
  {
    forall fd | fd != l[p].fd
      ensures Masks(Without(l, p), 0, fd) == Masks(l, 0, fd)
    {
      MasksWithout(l, p, fd);
    }
    var k :| k in l[p].eventmask;
    MasksAt(l, 0, l[p].fd, k);
    assert k in Masks(l, 0, l[p].fd);
    hide Masks, Without;
  }

  /** The non-blocking descriptors are at any time those that were so at the start and the registered ones. */
  lemma {:induction false} FaithfulModes(l: seq<EvFile>, n: nat, original: map<int, bool>, nonblock: set<int>,
                                         before: set<int>)
    requires Faithful(l, original, nonblock, before) && InRange(l, n)
    ensures nonblock == before + Fds(Regs(l))
  {
    var used := Fds(Regs(l));
    forall fd
      ensures fd in used <==> Masks(l, 0, fd) != {}
    {
      MaskAll(Masks(l, 0, fd));
      TakenIs(l, fd, ALL);
      if fd in used {
        var i :| 0 <= i < |l| && Regs(l)[i].fd == fd;
        MaskAll(l[i].eventmask);
      }
    }
    forall fd
      ensures fd in nonblock <==> fd in before + used
    {
      assert fd in used <==> Masks(l, 0, fd) != {};
    }
  }

  /** What a program knows of a registration. */
  datatype Reg = Reg(fd: int, eventmask: set<Kind>, func: nat)

  function Fds(regs: seq<Reg>): (s: set<int>) {
    set r | r in regs :: r.fd
  }

  function Regs(l: seq<EvFile>): (r: seq<Reg>)
    ensures |r| == |l| && forall i :: 0 <= i < |l| ==> r[i] == Reg(l[i].fd, l[i].eventmask, l[i].func)
  {
    seq(|l|, i requires 0 <= i < |l| => Reg(l[i].fd, l[i].eventmask, l[i].func))
  }

  /** Someone waits for one of the events on fd. */
  ghost predicate Taken(regs: seq<Reg>, fd: int, mask: set<Kind>) {
    exists i :: 0 <= i < |regs| && regs[i].fd == fd && regs[i].eventmask * mask != {}
  }

  lemma {:induction false} TakenIs(l: seq<EvFile>, fd: int, mask: set<Kind>)
    ensures Taken(Regs(l), fd, mask) <==> Masks(l, 0, fd) * mask != {}
  {
    if Taken(Regs(l), fd, mask) {
      var i :| 0 <= i < |l| && Regs(l)[i].fd == fd && Regs(l)[i].eventmask * mask != {};
      var k :| k in l[i].eventmask * mask;
      MasksAt(l, 0, fd, k);
      assert k in Masks(l, 0, fd) * mask;
    }
    if Masks(l, 0, fd) * mask != {} {
      var k :| k in Masks(l, 0, fd) * mask;
      MasksAt(l, 0, fd, k);
      var i :| 0 <= i < |l| && l[i].fd == fd && k in l[i].eventmask;
      assert k in Regs(l)[i].eventmask * mask;
    }
  }

  /** What a program does with a context: it selects a descriptor, or deselects one of the registrations that it
      holds, counted from the latest. */
  datatype Op = Select(fd: int, eventmask: int, func: nat) | Deselect(at: nat)

  /** The registrations after an operation. */
  ghost function After(regs: seq<Reg>, op: Op, open: set<int>, highestFD: int): seq<Reg> {
    match op
    case Select(fd, mask, func) =>
      if 0 < mask <= 7 && fd <= highestFD && fd in open && !Taken(regs, fd, Kinds(mask))
      then [Reg(fd, Kinds(mask), func)] + regs else regs
    case Deselect(at) => if at < |regs| then Without(regs, at) else regs
  }

  ghost function AfterAll(regs: seq<Reg>, ops: seq<Op>, open: set<int>, highestFD: int): seq<Reg> {
    if ops == [] then regs
    else After(AfterAll(regs, ops[..|ops| - 1], open, highestFD), ops[|ops| - 1], open, highestFD)
  }

  /** A program that uses an event context: the identifiers that it holds are those of the registrations. */
  class Program {
    const f: Files
    const kernel: Kernel
    var ids: seq<EvFile>

    /** The descriptors that were non-blocking at the start. */
    ghost const before: set<int>

    ghost predicate Valid()
      reads this, f, f.fdTable, f.list, kernel
    {
      && f.Valid() && ids == f.list && (forall d :: d in kernel.open ==> d >= 0)
      && (forall i :: 0 <= i < |ids| ==> ids[i].fd in kernel.open)
      && Faithful(ids, f.original, kernel.nonblock, before)
    }

    constructor (f: Files, kernel: Kernel)
      requires f.Valid() && f.list == [] && forall d :: d in kernel.open ==> d >= 0
      ensures Valid() && this.f == f && this.kernel == kernel && ids == [] && before == kernel.nonblock
    {
      this.f, this.kernel, ids, before := f, kernel, [], kernel.nonblock;
    }

    method Take(fd: int, eventmask: int, func: nat)
      requires Valid()
      modifies this, f, f.fdTable, f.list, kernel`nonblock
      ensures Valid() && forall i :: 0 <= i < |ids| ==> ids[i] in old(ids) || fresh(ids[i])
      ensures Regs(ids) == After(old(Regs(ids)), Select(fd, eventmask, func), kernel.open, f.highestFD)
    {
      hide Faithful, Masks, Files.Linked, Files.Recorded, Files.Accounted, Taken;
      if 0 < eventmask <= 7 {
        TakenIs(ids, fd, Kinds(eventmask));
      }
      var r, id := f.SelectFD(kernel, fd, eventmask, func);
      if r == Ok {
        FaithfulPushed(ids, id, old(f.original), old(kernel.nonblock), before);
        ids := [id] + ids;
      }
    }

    method Give(at: nat)
      requires Valid() && at < |ids|
      modifies this, f, f.fdTable, f.list, kernel`nonblock
      ensures Valid() && forall i :: 0 <= i < |ids| ==> ids[i] in old(ids)
      ensures Regs(ids) == Without(old(Regs(ids)), at)
    {
      hide Faithful, Masks, Files.Linked, Files.Recorded, Files.Accounted;
      AtOnce(at);
      var r, p := f.DeselectFD(kernel, ids[at]);
      FaithfulWithout(ids, at, f.original, old(kernel.nonblock), before);
      ids := ids[..at] + ids[at + 1..];
    }

    /** A registration is in effect once, and waits for something. */
    lemma {:induction false} AtOnce(at: nat)
      requires Valid() && at < |ids|
      ensures ids[at].eventmask != {} && forall p :: 0 <= p < |ids| && ids[p] == ids[at] ==> p == at
    {
    }

    /** What the modes are, whatever happened before. */
    lemma {:induction false} Modes()
      requires Valid()
      ensures kernel.nonblock == before + Fds(Regs(ids))
    {
      FaithfulModes(ids, f.fdTable.Length, f.original, kernel.nonblock, before);
    }

    /** Any run on descriptors that stay open and whose modes nobody else changes. The non-blocking descriptors are
        the registered ones and those that were so at the start: with the last registration of a descriptor its
        original mode is back. */
    method Run(ops: seq<Op>)
      requires Valid()
      modifies this, f, f.fdTable, f.list, kernel`nonblock
      ensures Valid() && Regs(ids) == AfterAll(old(Regs(ids)), ops, kernel.open, f.highestFD)
      ensures kernel.nonblock == before + Fds(Regs(ids))
    {
      hide Faithful, Files.Valid, After;
      var i := 0;
      while i < |ops|
        invariant 0 <= i <= |ops| && Valid()
        invariant forall j :: 0 <= j < |ids| ==> ids[j] in old(ids) || fresh(ids[j])
        invariant Regs(ids) == AfterAll(old(Regs(ids)), ops[..i], kernel.open, f.highestFD)
      {
        assert ops[..i + 1][..i] == ops[..i];
        Step(ops[i]);
        i := i + 1;
      }
      assert ops[..i] == ops;
      Modes();
    }

    method Step(op: Op)
      requires Valid()
      modifies this, f, f.fdTable, f.list, kernel`nonblock
      ensures Valid() && forall i :: 0 <= i < |ids| ==> ids[i] in old(ids) || fresh(ids[i])
      ensures Regs(ids) == After(old(Regs(ids)), op, kernel.open, f.highestFD)
    {
      hide Faithful, Files.Valid, Taken;
      match op {
        case Select(fd, eventmask, func) => Take(fd, eventmask, func);
        case Deselect(at) => if at < |ids| { Give(at); }
      }
    }
  }
}
