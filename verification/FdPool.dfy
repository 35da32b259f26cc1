/**
 The file descriptor pool: first-free allocation with a high-water mark, and locks for exclusive access, whose two
 scans of the pool stop at different places.
 */
module FdPool {
  import opened Words

  const MAX_FD: nat := 32

  /** A registered device or file system. */
  datatype Device = Device(id: nat, fs: bool)

  /** A pool entry: what it refers to, its lock and device flags, and the caller's flag bits. */
  datatype Entry = Entry(dev: Option<Device>, excl: bool, isDev: bool, bits: nat)

  const FREE: Entry := Entry(None, false, false, 0)
  const DEV_NULL: Device := Device(0, false)

  type Entries = s: seq<Entry> | |s| == MAX_FD witness seq(MAX_FD, _ => FREE)

  datatype State = State(list: Entries, maxFd: int)

  /** A call's result; a failed call also stores its error in errno. */
  datatype Reply = Ok(value: int) | Fail(error: Errno)

  /** Standard input, output and error refer to /dev/null at first; nothing was ever allocated. */
  const BOOT: State := State(seq(MAX_FD, i => if i < 3 then Entry(Some(DEV_NULL), false, false, 0) else FREE), -1)

  // ------------------------------------------------------------------ what each call does

  datatype Request = Lock | Unlock | Other

  /** A call, with what the lookup of the name finds and what the driver's own function returns, if it has one. */
  datatype Op =
    | Open(dev: Option<Device>, bits: nat, driver: Option<Reply>)
    | Close(fd: int, driver: Option<Reply>)
    | Ioctl(fd: int, request: Request, driver: Option<Reply>)
    | Redirect(fd: int, dev: Option<Device>, bits: nat, driver: Option<Reply>)

  function FirstFree(list: Entries, from: nat): (fd: Option<nat>)
    ensures fd.Some? ==> from <= fd.value < MAX_FD && list[fd.value].dev.None?
    ensures forall i :: from <= i < (if fd.Some? then fd.value else MAX_FD) ==> list[i].dev.Some?
    decreases MAX_FD - from
  {
    if from >= MAX_FD then None else if list[from].dev.None? then Some(from) else FirstFree(list, from + 1)
  }

  /** Some other entry up to and including the limit holds the lock on the device of an entry. */
  predicate LockedByOther(list: Entries, fd: nat, limit: int)
    requires fd < MAX_FD
  {
    exists j :: 0 <= j < MAX_FD && j <= limit && j != fd && list[j].dev == list[fd].dev && list[j].excl
  }

  /** Some other entry strictly below the limit refers to the device of an entry. */
  predicate SharedBelow(list: Entries, fd: nat, limit: int)
    requires fd < MAX_FD
  {
    exists j :: 0 <= j < MAX_FD && j < limit && j != fd && list[j].dev == list[fd].dev
  }

  function Max(a: int, b: int): int { if a > b then a else b }

  /** alt_release_fd: entries 0 to 2 are never released. */
  function Released(p: State, fd: int): State
    requires fd < MAX_FD
  {
    if fd > 2 then p.(list := p.list[fd := FREE]) else p
  }

  function OpenStep(p: State, dev: Option<Device>, bits: nat, driver: Option<Reply>): (State, Reply)
  {
    if dev.None? then (p, Fail(ENODEV)) else
    match FirstFree(p.list, 0)
    case None => (p, Fail(EMFILE))
    case Some(i) =>
      var entry := Entry(dev, false, !dev.value.fs, bits % 0x4000_0000);
      var q := State(p.list[i := entry], Max(i, p.maxFd));
      if !dev.value.fs && LockedByOther(q.list, i, q.maxFd) then (Released(q, i), Fail(EACCES))
      else if driver.Some? && driver.value.Fail? then (Released(q, i), driver.value)
      else (q, Ok(i))
  }

  function CloseStep(p: State, fd: int, driver: Option<Reply>): (State, Reply)
    requires fd < MAX_FD
  {
    if fd < 0 then (p, Fail(EBADFD))
    else (Released(p, fd), if driver.Some? && driver.value.Fail? then driver.value else Ok(0))
  }

  function LockStep(p: State, fd: nat): (State, Reply)
    requires fd < MAX_FD
  {
    if SharedBelow(p.list, fd, p.maxFd) then (p, Fail(EACCES))
    else (p.(list := p.list[fd := p.list[fd].(excl := true)]), Ok(0))
  }

  function IoctlStep(p: State, fd: int, request: Request, driver: Option<Reply>): (State, Reply)
    requires fd < MAX_FD
  {
    if fd < 0 then (p, Fail(EBADFD))
    else if p.list[fd].isDev && request == Lock then LockStep(p, fd)
    else if p.list[fd].isDev && request == Unlock then (p.(list := p.list[fd := p.list[fd].(excl := false)]), Ok(0))
    else (p, if driver.None? then Fail(ENOTTY) else driver.value)
  }

  /** alt_open_fd: a standard descriptor takes over a freshly opened entry. */
  function RedirectStep(p: State, fd: nat, dev: Option<Device>, bits: nat, driver: Option<Reply>): (State, Reply)
    requires fd < MAX_FD
  {
    var (q, r) := OpenStep(p, dev, bits, driver);
    if r.Ok? && 0 <= r.value < MAX_FD then (Released(q.(list := q.list[fd := q.list[r.value]]), r.value), r) else (q, r)
  }

  /** What the calls demand: descriptors in use, or negative; redirection of a standard descriptor. */
  predicate Permitted(p: State, op: Op)
  {
    match op
    case Open(_, _, _) => true
    case Close(fd, _) => fd < 0 || (fd < MAX_FD && p.list[fd].dev.Some?)
    case Ioctl(fd, _, _) => fd < 0 || (fd < MAX_FD && p.list[fd].dev.Some?)
    case Redirect(fd, _, _, _) => 0 <= fd < 3
  }

  function Step(p: State, op: Op): (State, Reply)
    requires Permitted(p, op)
  {
    match op
    case Open(dev, bits, driver) => OpenStep(p, dev, bits, driver)
    case Close(fd, driver) => CloseStep(p, fd, driver)
    case Ioctl(fd, request, driver) => IoctlStep(p, fd, request, driver)
    case Redirect(fd, dev, bits, driver) => RedirectStep(p, fd, dev, bits, driver)
  }

  // ------------------------------------------------------------------ what every call keeps

  predicate Shares(p: State, i: int, d: Device)
  {
    0 <= i < MAX_FD && p.list[i].dev == Some(d)
  }

  predicate Holds(p: State, i: int, d: Device)
  {
    Shares(p, i, d) && p.list[i].excl
  }

  /** The mark bounds every open descriptor from 3 on; 0 to 2 are never free, a free entry is clear, and only open
      devices are locked. */
  ghost predicate WellFormed(p: State)
  {
    && (p.maxFd == -1 || 3 <= p.maxFd < MAX_FD)
    && (forall i :: 0 <= i < 3 ==> p.list[i].dev.Some?)
    && (forall i :: 0 <= i < MAX_FD && p.list[i].dev.None? ==> p.list[i] == FREE)
    && (forall i :: 3 <= i < MAX_FD && p.list[i].dev.Some? ==> i <= p.maxFd)
    && (forall i :: 0 <= i < MAX_FD && p.list[i].excl ==> p.list[i].isDev)
    && (forall i :: 0 <= i < MAX_FD && p.list[i].isDev ==> p.list[i].dev.Some? && !p.list[i].dev.value.fs && p.maxFd >= 3)
  }

  /** Although a lock may leave one sharer undetected, no two descriptors ever hold a lock on the same device. */
  ghost predicate OneHolder(p: State)
  {
    forall i, j, d :: Holds(p, i, d) && Holds(p, j, d) ==> i == j
  }

  /** A lock held by the descriptor at the mark is exclusive. */
  ghost predicate MarkIsExclusive(p: State)
  {
    forall j, d :: Holds(p, p.maxFd, d) && Shares(p, j, d) ==> j == p.maxFd
  }

  ghost predicate Invariant(p: State) { WellFormed(p) && OneHolder(p) && MarkIsExclusive(p) }

  /** Nothing joins the device of a held lock: the entries that share a held device after p' already did in p. */
  ghost predicate NoneJoins(p: State, q: State)
  {
    forall h, i, d :: Holds(p, h, d) && Shares(q, i, d) ==> Shares(p, i, d)
  }

  /** An open that fails or succeeds: the one entry it touches, which was the first free one. */
  lemma OpenTouchesFirstFree(p: State, dev: Option<Device>, bits: nat, driver: Option<Reply>)
    requires WellFormed(p)
    ensures var (q, r) := OpenStep(p, dev, bits, driver);
            && (r.Ok? ==>
                  && dev.Some? && FirstFree(p.list, 0) == Some(r.value) && 3 <= r.value <= q.maxFd == Max(r.value, p.maxFd)
                  && q.list == p.list[r.value := Entry(dev, false, !dev.value.fs, bits % 0x4000_0000)])
            && (r.Fail? ==>
                  forall i :: 0 <= i < MAX_FD ==> q.list[i] == p.list[i] || (q.list[i] == FREE && p.list[i].dev.None?))
            && (q.maxFd == p.maxFd || (FirstFree(p.list, 0) == Some(q.maxFd) && p.maxFd < q.maxFd && q.maxFd >= 3))
  {
    var i := FirstFree(p.list, 0);
    assert i.Some? ==> i.value >= 3;
  }

  /** A device is refused with EACCES exactly when there is a free entry and somebody holds its lock. */
  lemma OpenRefusedIff(p: State, d: Device, bits: nat, driver: Option<Reply>)
    requires Invariant(p) && !d.fs && driver != Some(Fail(EACCES))
    ensures OpenStep(p, Some(d), bits, driver).1 == Fail(EACCES) <==>
              FirstFree(p.list, 0).Some? && exists h :: Holds(p, h, d)
  {
    match FirstFree(p.list, 0) {
      case None =>
      case Some(i) =>
        var entry := Entry(Some(d), false, true, bits % 0x4000_0000);
        var list: Entries := p.list[i := entry];
        var limit := Max(i, p.maxFd);
        if h :| Holds(p, h, d) {
          assert list[h].excl && list[h].dev == list[i].dev && h <= limit;
        }
        if LockedByOther(list, i, limit) {
          var j :| 0 <= j < MAX_FD && j <= limit && j != i && list[j].dev == list[i].dev && list[j].excl;
          assert Holds(p, j, d);
        }
    }
  }

  lemma OpenStaysWellFormed(p: State, dev: Option<Device>, bits: nat, driver: Option<Reply>)
    requires WellFormed(p)
    ensures WellFormed(OpenStep(p, dev, bits, driver).0)
  {
    OpenTouchesFirstFree(p, dev, bits, driver);
  }

  lemma OpenKeeps(p: State, dev: Option<Device>, bits: nat, driver: Option<Reply>)
    requires Invariant(p)
    ensures var q := OpenStep(p, dev, bits, driver).0; Invariant(q) && NoneJoins(p, q)
    ensures var (q, r) := OpenStep(p, dev, bits, driver); r.Ok? ==> forall h :: !Holds(p, h, dev.value)
  {
    OpenTouchesFirstFree(p, dev, bits, driver);
    OpenStaysWellFormed(p, dev, bits, driver);
    var (q, r) := OpenStep(p, dev, bits, driver);
    if r.Ok? {
      if dev.value.fs {
        assert forall h :: !Holds(p, h, dev.value);
      } else {
        OpenRefusedIff(p, dev.value, bits, None);
        assert OpenStep(p, dev, bits, None).1 != Fail(EACCES);
      }
    }
    assert forall i, d :: Holds(q, i, d) ==> Holds(p, i, d) && (r.Ok? ==> i != r.value);
    assert forall i, d :: Shares(q, i, d) ==> Shares(p, i, d) || (r.Ok? && i == r.value && d == dev.value);
  }

  lemma ReleasedKeeps(p: State, fd: int)
    requires Invariant(p) && fd < MAX_FD
    ensures Invariant(Released(p, fd)) && NoneJoins(p, Released(p, fd))
  {
    var q := Released(p, fd);
    assert forall i, d :: (Shares(q, i, d) ==> Shares(p, i, d)) && (Holds(q, i, d) ==> Holds(p, i, d));
  }

  lemma LockKeeps(p: State, fd: nat)
    requires Invariant(p) && fd < MAX_FD && p.list[fd].isDev
    ensures var q := LockStep(p, fd).0; Invariant(q) && NoneJoins(p, q)
  {
    var q := LockStep(p, fd).0;
    var dev := p.list[fd].dev.value;
    assert forall i, d :: Shares(q, i, d) <==> Shares(p, i, d);
    assert forall i, d :: Holds(q, i, d) ==> Holds(p, i, d) || (i == fd && d == dev);
    if !SharedBelow(p.list, fd, p.maxFd) {
      assert Shares(p, fd, dev);
      forall j | Shares(p, j, dev) && j != fd
        ensures j == p.maxFd && !Holds(p, j, dev)
      {
        assert p.list[j].dev == p.list[fd].dev;
        assert Holds(p, p.maxFd, dev) && Shares(p, fd, dev) ==> fd == p.maxFd;
      }
    }
  }

  lemma UnlockKeeps(p: State, fd: nat)
    requires Invariant(p) && fd < MAX_FD
    ensures var q := p.(list := p.list[fd := p.list[fd].(excl := false)]); Invariant(q) && NoneJoins(p, q)
  {
    var q := p.(list := p.list[fd := p.list[fd].(excl := false)]);
    assert forall i, d :: (Shares(q, i, d) <==> Shares(p, i, d)) && (Holds(q, i, d) ==> Holds(p, i, d));
  }

  lemma OpenKeepsHolders(p: State, dev: Option<Device>, bits: nat, driver: Option<Reply>, i: int, d: Device)
    requires WellFormed(p)
    ensures var (q, r) := OpenStep(p, dev, bits, driver);
            (Holds(q, i, d) <==> Holds(p, i, d)) && (r.Ok? ==> !Holds(p, r.value, d) && 3 <= r.value < MAX_FD)
  {
    OpenTouchesFirstFree(p, dev, bits, driver);
  }

  /** A standard descriptor takes over an entry whose device nobody has locked. */
  lemma TakeOverKeeps(p: State, o: State, fd: nat, n: nat, d: Device)
    requires Invariant(o) && NoneJoins(p, o) && fd < 3 <= n < MAX_FD
    requires Shares(o, n, d) && (forall i :: !Holds(o, i, d)) && forall i :: !Holds(p, i, d)
    ensures var m := o.(list := o.list[fd := o.list[n]]); Invariant(m) && NoneJoins(p, m)
  {
    var m := o.(list := o.list[fd := o.list[n]]);
    assert !Holds(o, n, d) && m.list[fd] == o.list[n];
    assert forall i, e :: Holds(m, i, e) ==> Holds(o, i, e) && i != fd;
    assert forall i, e :: Shares(m, i, e) ==> Shares(o, i, e) || e == d;
  }

  lemma RedirectKeeps(p: State, fd: nat, dev: Option<Device>, bits: nat, driver: Option<Reply>)
    requires Invariant(p) && fd < 3
    ensures var q := RedirectStep(p, fd, dev, bits, driver).0; Invariant(q) && NoneJoins(p, q)
  {
    OpenKeeps(p, dev, bits, driver);
    OpenTouchesFirstFree(p, dev, bits, driver);
    var (o, r) := OpenStep(p, dev, bits, driver);
    if r.Ok? {
      forall i
        ensures !Holds(o, i, dev.value)
      {
        OpenKeepsHolders(p, dev, bits, driver, i, dev.value);
      }
      TakeOverKeeps(p, o, fd, r.value, dev.value);
      ReleasedKeeps(o.(list := o.list[fd := o.list[r.value]]), r.value);
    }
  }

  /** Every permitted call keeps the invariant, and nothing joins the device of a held lock. */
  lemma StepKeeps(p: State, op: Op)
    requires Invariant(p) && Permitted(p, op)
    ensures var q := Step(p, op).0; Invariant(q) && NoneJoins(p, q)
  {
    match op {
      case Open(dev, bits, driver) => OpenKeeps(p, dev, bits, driver);
      case Close(fd, _) => ReleasedKeeps(p, fd);
      case Ioctl(fd, request, _) =>
        if fd >= 0 && p.list[fd].isDev && request == Lock {
          LockKeeps(p, fd);
        } else if fd >= 0 && p.list[fd].isDev && request == Unlock {
          UnlockKeeps(p, fd);
        }
      case Redirect(fd, dev, bits, driver) => RedirectKeeps(p, fd, dev, bits, driver);
    }
  }

  // ------------------------------------------------------------------ whole runs

  ghost predicate PermittedAll(p: State, ops: seq<Op>)
    decreases |ops|
  {
    ops == [] || (Permitted(p, ops[0]) && PermittedAll(Step(p, ops[0]).0, ops[1..]))
  }

  ghost function After(p: State, ops: seq<Op>): State
    requires PermittedAll(p, ops)
    decreases |ops|
  {
    if ops == [] then p else After(Step(p, ops[0]).0, ops[1..])
  }

  /** A descriptor holds the lock on a device before, between and after all the calls. */
  ghost predicate HoldsThroughout(p: State, ops: seq<Op>, fd: int, d: Device)
    requires PermittedAll(p, ops)
    decreases |ops|
  {
    Holds(p, fd, d) && (ops == [] || HoldsThroughout(Step(p, ops[0]).0, ops[1..], fd, d))
  }

  lemma {:induction false} InvariantAfter(p: State, ops: seq<Op>)
    requires Invariant(p) && PermittedAll(p, ops)
    ensures Invariant(After(p, ops))
    decreases |ops|
  {
    if ops == [] {
    } else {
      StepKeeps(p, ops[0]);
      InvariantAfter(Step(p, ops[0]).0, ops[1..]);
    }
  }

  /** Over every run from start-up: the mark bounds all, 0 to 2 stay in use, and a device has one holder at most. */
  lemma AlwaysOneHolder(ops: seq<Op>)
    requires PermittedAll(BOOT, ops)
    ensures WellFormed(After(BOOT, ops)) && OneHolder(After(BOOT, ops))
  {
    assert forall i, d :: !Holds(BOOT, i, d);
    InvariantAfter(BOOT, ops);
  }

  /** For as long as a lock is held, whatever calls are made, no descriptor joins its device. */
  lemma {:induction false} NoneJoinsWhileHeld(p: State, ops: seq<Op>, fd: int, d: Device, i: int)
    requires Invariant(p) && PermittedAll(p, ops) && HoldsThroughout(p, ops, fd, d)
    ensures Shares(After(p, ops), i, d) ==> Shares(p, i, d)
    decreases |ops|
  {
    if ops == [] {
    } else {
      StepKeeps(p, ops[0]);
      NoneJoinsWhileHeld(Step(p, ops[0]).0, ops[1..], fd, d, i);
    }
  }

  // ------------------------------------------------------------------ what a granted lock means

  ghost predicate Exclusive(p: State, fd: int, d: Device)
  {
    Shares(p, fd, d) && forall i :: Shares(p, i, d) ==> i == fd
  }

  /** The descriptor at the mark is the one entry the lock's scan leaves out. */
  predicate OtherAtMark(p: State, fd: int, d: Device)
  {
    p.maxFd != fd && Shares(p, p.maxFd, d)
  }

  ghost predicate OtherBelow(p: State, fd: int, d: Device)
  {
    exists i :: Shares(p, i, d) && i < p.maxFd && i != fd
  }

  /** A lock is granted exactly when no other descriptor strictly below the mark shares the device. */
  lemma GrantedIff(p: State, fd: nat, d: Device, driver: Option<Reply>)
    requires Invariant(p) && Shares(p, fd, d) && p.list[fd].isDev
    ensures var (q, r) := IoctlStep(p, fd, Lock, driver);
            && (r == Ok(0) <==> !OtherBelow(p, fd, d))
            && (r == Ok(0) ==> Holds(q, fd, d) && q == p.(list := p.list[fd := p.list[fd].(excl := true)]))
            && (r != Ok(0) ==> q == p && r == Fail(EACCES))
  {
    if i :| Shares(p, i, d) && i < p.maxFd && i != fd {
      assert p.list[i].dev == p.list[fd].dev;
    }
    if SharedBelow(p.list, fd, p.maxFd) {
      var j :| 0 <= j < MAX_FD && j < p.maxFd && j != fd && p.list[j].dev == p.list[fd].dev;
      assert Shares(p, j, d);
    }
  }

  /** A granted lock is exclusive if, and only if, the descriptor at the mark is not another one on the device. */
  lemma GrantIsExclusiveIff(p: State, fd: nat, d: Device, driver: Option<Reply>)
    requires Invariant(p) && Shares(p, fd, d) && p.list[fd].isDev && IoctlStep(p, fd, Lock, driver).1 == Ok(0)
    ensures Exclusive(IoctlStep(p, fd, Lock, driver).0, fd, d) <==> !OtherAtMark(p, fd, d)
  {
    GrantedIff(p, fd, d, driver);
    var q := IoctlStep(p, fd, Lock, driver).0;
    assert forall i :: Shares(q, i, d) <==> Shares(p, i, d);
    if OtherAtMark(p, fd, d) {
      assert Shares(q, p.maxFd, d);
    }
  }

  /** A lock granted with nobody else at the mark stays exclusive for as long as it is held. */
  lemma ExclusiveWhileHeld(p: State, fd: nat, d: Device, driver: Option<Reply>, ops: seq<Op>)
    requires Invariant(p) && Shares(p, fd, d) && p.list[fd].isDev && IoctlStep(p, fd, Lock, driver).1 == Ok(0)
    requires !OtherAtMark(p, fd, d)
    requires var q := IoctlStep(p, fd, Lock, driver).0; PermittedAll(q, ops) && HoldsThroughout(q, ops, fd, d)
    ensures var q := IoctlStep(p, fd, Lock, driver).0; Exclusive(After(q, ops), fd, d)
  {
    var q := IoctlStep(p, fd, Lock, driver).0;
    GrantIsExclusiveIff(p, fd, d, driver);
    StepKeeps(p, Ioctl(fd, Lock, driver));
    forall i | Shares(After(q, ops), i, d)
      ensures i == fd
    {
      NoneJoinsWhileHeld(q, ops, fd, d, i);
    }
    HoldsAtEnd(q, ops, fd, d);
  }

  lemma {:induction false} HoldsAtEnd(p: State, ops: seq<Op>, fd: int, d: Device)
    requires PermittedAll(p, ops) && HoldsThroughout(p, ops, fd, d)
    ensures Holds(After(p, ops), fd, d)
    decreases |ops|
  {
    if ops == [] {
    } else {
      HoldsAtEnd(Step(p, ops[0]).0, ops[1..], fd, d);
    }
  }

  /** The strict bound does let a lock through that is not exclusive: open a device twice and lock the first one. */
  lemma SharedLock(d: Device)
    requires d != DEV_NULL && !d.fs
    ensures var one := OpenStep(BOOT, Some(d), 0, None).0;
            var two := OpenStep(one, Some(d), 0, None).0;
            var (p, r) := IoctlStep(two, 3, Lock, None);
            r == Ok(0) && Holds(p, 3, d) && Shares(p, 4, d)
  {
    assert FirstFree(BOOT.list, 0) == Some(3);
    var one := OpenStep(BOOT, Some(d), 0, None).0;
    assert one == State(BOOT.list[3 := Entry(Some(d), false, true, 0)], 3);
    assert FirstFree(one.list, 0) == Some(4);
    var two := OpenStep(one, Some(d), 0, None).0;
    assert two.list == BOOT.list[3 := Entry(Some(d), false, true, 0)][4 := Entry(Some(d), false, true, 0)] && two.maxFd == 4;
  }

  // ------------------------------------------------------------------ opening and closing

  /** The operation gives up the lock of a descriptor: an unlock, or a close of one that can be released. */
  predicate GivesUp(op: Op, fd: nat)
  {
    (op.Ioctl? && op.fd == fd && op.request == Unlock) || (op.Close? && op.fd == fd > 2)
  }

  /**
   Giving up a lock ends it: nobody holds the device any more, an open of it is not refused for a lock, and if the
   descriptor is still open, it is unchanged but for the lock.
   */
  lemma LockEnds(p: State, op: Op, fd: nat, d: Device, bits: nat, driver: Option<Reply>)
    requires Invariant(p) && Permitted(p, op) && Holds(p, fd, d) && GivesUp(op, fd) && driver != Some(Fail(EACCES))
    ensures var q := Step(p, op).0;
            && (forall i :: !Holds(q, i, d)) && (forall i :: i != fd ==> (Shares(q, i, d) <==> Shares(p, i, d)))
            && OpenStep(q, Some(d), bits, driver).1 != Fail(EACCES)
            && (op.Ioctl? ==> q == p.(list := p.list[fd := p.list[fd].(excl := false)]))
  {
    var q := Step(p, op).0;
    StepKeeps(p, op);
    forall i
      ensures !Holds(q, i, d)
    {
      assert Holds(q, i, d) ==> Holds(p, i, d) && i != fd;
    }
    OpenRefusedIff(q, d, bits, driver);
  }

  /** Locks change hands only where they are asked to: by a lock, an unlock, a close, or a redirection of the entry. */
  lemma HoldersChangeOnly(p: State, op: Op, i: nat, d: Device)
    requires Invariant(p) && Permitted(p, op)
    ensures var q := Step(p, op).0;
            && (Holds(q, i, d) && !Holds(p, i, d) ==> op.Ioctl? && op.fd == i && op.request == Lock)
            && (Holds(p, i, d) && !Holds(q, i, d) ==> GivesUp(op, i) || (op.Redirect? && op.fd == i))
  {
    if op.Open? || op.Redirect? {
      OpenKeepsHolders(p, op.dev, op.bits, op.driver, i, d);
    }
  }

  /**
   A close answers for the driver: with its error if its own close fails, and with 0 if that succeeds or there is none.
   The descriptor is free again in either case.
   */
  lemma CloseAnswers(p: State, fd: nat, error: Errno, driver: Option<Reply>)
    requires 2 < fd < MAX_FD
    ensures CloseStep(p, fd, Some(Fail(error))) == (CloseStep(p, fd, None).0, Fail(error))
    ensures driver.None? || driver.value.Ok? ==> CloseStep(p, fd, driver).1 == Ok(0)
    ensures CloseStep(p, fd, driver).0.list[fd].dev == None && FirstFree(CloseStep(p, fd, driver).0.list, 0).Some?
  {
    var list := CloseStep(p, fd, driver).0.list;
    assert list[fd].dev.None?;
  }

  /** Closing what was just opened gives back the pool as it was, but for the mark. */
  lemma OpenThenClose(p: State, dev: Option<Device>, bits: nat, driver: Option<Reply>, atClose: Option<Reply>)
    requires WellFormed(p)
    ensures var (q, r) := OpenStep(p, dev, bits, driver);
            if r.Ok? then Permitted(q, Close(r.value, atClose)) && CloseStep(q, r.value, atClose).0.list == p.list
            else q.list == p.list
  {
    OpenTouchesFirstFree(p, dev, bits, driver);
    var (q, r) := OpenStep(p, dev, bits, driver);
    if r.Fail? {
      assert forall i :: 0 <= i < MAX_FD ==> q.list[i] == p.list[i];
    }
  }

  /** A redirected standard descriptor is what the name would have been opened as, and the pool is otherwise as it was. */
  lemma RedirectTakesOver(p: State, fd: nat, dev: Option<Device>, bits: nat, driver: Option<Reply>)
    requires WellFormed(p) && fd < 3
    ensures var (q, r) := RedirectStep(p, fd, dev, bits, driver);
            && r == OpenStep(p, dev, bits, driver).1
            && (r.Ok? ==>
                  && dev.Some? && q.list == p.list[fd := OpenStep(p, dev, bits, driver).0.list[r.value]]
                  && q.list[fd].dev == dev && !q.list[fd].excl)
            && (r.Fail? ==> q.list == p.list)
  {
    OpenTouchesFirstFree(p, dev, bits, driver);
    OpenThenClose(p, dev, bits, driver, None);
  }

  // ------------------------------------------------------------------ the code

  class Pool {
    const list: array<Entry>
    var maxFd: int
    var errno: Option<Errno>

    ghost predicate Valid() { list.Length == MAX_FD }

    ghost function Snapshot(): State
      requires Valid()
      reads this`maxFd, list
    {
      State(list[..], maxFd)
    }

    constructor ()
      ensures Valid() && fresh(list) && Snapshot() == BOOT && errno == None
    {
      list := new Entry[MAX_FD](i => if i < 3 then Entry(Some(DEV_NULL), false, false, 0) else FREE);
      maxFd, errno := -1, None;
    }

    /** alt_get_fd: the first free entry, and the mark raised to it. */
    method GetFd(dev: Device) returns (r: Reply)
      requires Valid()
      modifies this`maxFd, list
      ensures match FirstFree(old(list[..]), 0) {
                case None => r == Fail(EMFILE) && Snapshot() == old(Snapshot())
                case Some(i) =>
                  && r == Ok(i) && maxFd == Max(i, old(maxFd))
                  && list[..] == old(list[..])[i := old(list[i]).(dev := Some(dev))]
              }
    {
      for i := 0 to MAX_FD
        invariant Snapshot() == old(Snapshot()) && FirstFree(list[..], 0) == FirstFree(list[..], i)
      {
        if list[i].dev.None? {
          list[i] := list[i].(dev := Some(dev));
          if i > maxFd {
            maxFd := i;
          }
          return Ok(i);
        }
      }
      r := Fail(EMFILE);
    }

    /** alt_release_fd. */
    method ReleaseFd(fd: int)
      requires Valid() && fd < MAX_FD
      modifies list
      ensures Snapshot() == Released(old(Snapshot()), fd)
    {
      if fd > 2 {
        list[fd] := FREE;
      }
    }

    /** alt_file_locked: marks a device's descriptor, then scans up to and including the mark. */
    method FileLocked(fd: nat) returns (locked: bool)
      requires Valid() && fd < MAX_FD && 0 <= maxFd < MAX_FD
      modifies list
      ensures list[..] == old(list[..])[fd := old(list[fd]).(isDev := true)]
      ensures locked <==> LockedByOther(list[..], fd, maxFd)
    {
      list[fd] := list[fd].(isDev := true);
      var i := 0;
      while i <= maxFd
        invariant 0 <= i && (i <= maxFd + 1 || i == 0)
        invariant forall j :: 0 <= j < i ==> !(list[j].dev == list[fd].dev && list[j].excl && j != fd)
      {
        if list[i].dev == list[fd].dev && list[i].excl && i != fd {
          return true;
        }
        i := i + 1;
      }
      locked := false;
    }

    method Failed(e: Errno) returns (r: Reply)
      modifies this`errno
      ensures r == Fail(e) && errno == Some(e)
    {
      errno := Some(e);
      r := Fail(e);
    }

    /** ALT_OPEN. */
    method Open(dev: Option<Device>, bits: nat, driver: Option<Reply>) returns (r: Reply)
      requires Valid() && WellFormed(Snapshot())
      modifies this`maxFd, this`errno, list
      ensures (Snapshot(), r) == OpenStep(old(Snapshot()), dev, bits, driver)
      ensures errno == if r.Fail? then Some(r.error) else old(errno)
    {
      if dev.None? {
        r := Failed(ENODEV);
        return;
      }
      r := GetFd(dev.value);
      if r.Fail? {
        r := Failed(r.error);
        return;
      }
      var index := r.value;
      list[index] := list[index].(excl := false, isDev := false, bits := bits % 0x4000_0000);
      var locked := false;
      if !dev.value.fs {
        locked := FileLocked(index);
      }
      assert list[..] == old(list[..])[index := Entry(dev, false, !dev.value.fs, bits % 0x4000_0000)];
      if locked {
        r := Fail(EACCES);
      } else if driver.Some? && driver.value.Fail? {
        r := driver.value;
      }
      if r.Fail? {
        ReleaseFd(index);
        r := Failed(r.error);
      }
    }

    /** ALT_CLOSE. */
    method Close(fd: int, driver: Option<Reply>) returns (r: Reply)
      requires Valid() && Permitted(Snapshot(), Op.Close(fd, driver))
      modifies this`errno, list
      ensures (Snapshot(), r) == CloseStep(old(Snapshot()), fd, driver)
      ensures errno == if r.Fail? then Some(r.error) else old(errno)
    {
      if fd < 0 {
        r := Failed(EBADFD);
        return;
      }
      ReleaseFd(fd);
      if driver.Some? && driver.value.Fail? {
        r := Failed(driver.value.error);
        return;
      }
      r := Ok(0);
    }

    /** alt_fd_lock: scans strictly below the mark. */
    method FdLock(fd: nat) returns (r: Reply)
      requires Valid() && fd < MAX_FD && maxFd < MAX_FD
      modifies list
      ensures (Snapshot(), r) == LockStep(old(Snapshot()), fd)
    {
      var i := 0;
      while i < maxFd
        invariant 0 <= i && (i <= maxFd || i == 0) && Snapshot() == old(Snapshot())
        invariant forall j :: 0 <= j < i ==> !(j != fd && list[j].dev == list[fd].dev)
      {
        if i != fd && list[i].dev == list[fd].dev {
          assert list[..][i].dev == list[..][fd].dev;
          return Fail(EACCES);
        }
        i := i + 1;
      }
      assert !SharedBelow(list[..], fd, maxFd);
      list[fd] := list[fd].(excl := true);
      r := Ok(0);
    }

    /** alt_fd_unlock. */
    method FdUnlock(fd: nat) returns (r: Reply)
      requires Valid() && fd < MAX_FD
      modifies list
      ensures r == Ok(0) && list[..] == old(list[..])[fd := old(list[fd]).(excl := false)]
    {
      list[fd] := list[fd].(excl := false);
      r := Ok(0);
    }

    /** ALT_IOCTL. */
    method Ioctl(fd: int, request: Request, driver: Option<Reply>) returns (r: Reply)
      requires Valid() && maxFd < MAX_FD && Permitted(Snapshot(), Op.Ioctl(fd, request, driver))
      modifies this`errno, list
      ensures (Snapshot(), r) == IoctlStep(old(Snapshot()), fd, request, driver)
      ensures errno == if r.Fail? then Some(r.error) else old(errno)
    {
      if fd < 0 {
        r := Fail(EBADFD);
      } else if list[fd].isDev && request == Lock {
        r := FdLock(fd);
      } else if list[fd].isDev && request == Unlock {
        r := FdUnlock(fd);
      } else if driver.Some? {
        r := driver.value;
      } else {
        r := Fail(ENOTTY);
      }
      if r.Fail? {
        r := Failed(r.error);
      }
    }

    /** alt_open_fd. */
    method Redirect(fd: nat, dev: Option<Device>, bits: nat, driver: Option<Reply>) returns (r: Reply)
      requires Valid() && WellFormed(Snapshot()) && fd < 3
      modifies this`maxFd, this`errno, list
      ensures (Snapshot(), r) == RedirectStep(old(Snapshot()), fd, dev, bits, driver)
      ensures errno == if r.Fail? then Some(r.error) else old(errno)
    {
      r := Open(dev, bits, driver);
      OpenTouchesFirstFree(old(Snapshot()), dev, bits, driver);
      if r.Ok? {
        list[fd] := list[r.value];
        ReleaseFd(r.value);
      }
    }
  }
}
