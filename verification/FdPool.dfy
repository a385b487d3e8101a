/** The file descriptor pool and its exclusive locks, on values: what each system call does to
    the table, and what holds over every sequence of calls. */
module FdPool {
  import opened Common

  const ALT_FD_EXCL: bv32 := 0x8000_0000
  const ALT_FD_DEV: bv32 := 0x4000_0000
  const ALT_FD_FLAGS_MASK: bv32 := 0xC000_0000
  /** O_APPEND | O_NONBLOCK */
  const ALT_FCNTL_FLAGS_MASK: bv32 := 0x0000_4008

  const EACCES := 13
  const ENODEV := 19
  const EMFILE := 24
  const ENOTTY := 25
  const EBADFD := 77

  /** A device or file system structure; 0 is NULL. */
  type Dev = nat

  datatype Slot = Slot(dev: Dev, flags: bv32)

  const FREE := Slot(0, 0)

  predicate Excl(s: Slot) { s.flags & ALT_FD_EXCL != 0 }

  predicate IsDev(s: Slot) { s.flags & ALT_FD_DEV != 0 }

  /** The two words agree in all bits but the two reserved ones. */
  predicate SameOpenFlags(f: bv32, g: bv32) {
    f & 0x3FFF_FFFF == g & 0x3FFF_FFFF
  }

  // The only places where flag bits are computed.

  /** The caller's open flags, the two reserved bits stripped. */
  function Stripped(dev: Dev, flags: bv32): (r: Slot)
    ensures r.dev == dev && !Excl(r) && !IsDev(r)
    ensures SameOpenFlags(r.flags, flags)
  {
    Slot(dev, flags & !ALT_FD_FLAGS_MASK)
  }

  function Marked(s: Slot): (r: Slot)
    ensures r.dev == s.dev && IsDev(r) && (Excl(r) <==> Excl(s)) && SameOpenFlags(r.flags, s.flags)
  {
    s.(flags := s.flags | ALT_FD_DEV)
  }

  function Claimed(dev: Dev, flags: bv32, device: bool): (r: Slot)
    ensures r.dev == dev && !Excl(r) && (IsDev(r) <==> device) && SameOpenFlags(r.flags, flags)
  {
    if device then Marked(Stripped(dev, flags)) else Stripped(dev, flags)
  }

  function Locked(s: Slot): (r: Slot)
    ensures r.dev == s.dev && Excl(r) && (IsDev(r) <==> IsDev(s)) && SameOpenFlags(r.flags, s.flags)
  {
    s.(flags := s.flags | ALT_FD_EXCL)
  }

  function Unlocked(s: Slot): (r: Slot)
    ensures r.dev == s.dev && !Excl(r) && (IsDev(r) <==> IsDev(s)) && SameOpenFlags(r.flags, s.flags)
  {
    s.(flags := s.flags & !ALT_FD_EXCL)
  }

  /** fcntl changes O_APPEND and O_NONBLOCK only. */
  function Reflagged(s: Slot, flags: bv32): (r: Slot)
    ensures r.dev == s.dev && (Excl(r) <==> Excl(s)) && (IsDev(r) <==> IsDev(s))
  {
    s.(flags := (s.flags & !ALT_FCNTL_FLAGS_MASK) | (flags & ALT_FCNTL_FLAGS_MASK))
  }

  datatype Pool = Pool(slots: seq<Slot>, maxFd: int)

  /** What alt_find_dev and then alt_find_file make of a name. */
  datatype Lookup = NoDevice | Device(dev: Dev) | FileSystem(dev: Dev)

  // ---------------------------------------------------------------- the calls

  function Max(a: int, b: int): int { if a > b then a else b }

  function FirstFree(slots: seq<Slot>, from: nat): (r: nat)
    requires from <= |slots|
    ensures from <= r <= |slots|
    ensures forall i :: from <= i < r ==> slots[i].dev != 0
    ensures r < |slots| ==> slots[r].dev == 0
    decreases |slots| - from
  {
    if from == |slots| || slots[from].dev == 0 then from else FirstFree(slots, from + 1)
  }

  function Release(p: Pool, fd: int): Pool
    requires fd < |p.slots|
  {
    if fd > 2 then p.(slots := p.slots[fd := FREE]) else p
  }

  /** Some other descriptor up to the high-water mark holds a lock on this one's device. */
  predicate LockedByOther(p: Pool, fd: nat)
    requires fd < |p.slots| && p.maxFd < |p.slots|
  {
    exists i :: 0 <= i <= p.maxFd && i != fd && p.slots[i].dev == p.slots[fd].dev && Excl(p.slots[i])
  }

  /** open(): the new table, and the descriptor or the negated error number.  `driver` is what
      the driver's own open function would return (0 if it has none). */
  function Open(p: Pool, name: Lookup, flags: bv32, driver: int): (r: (Pool, int))
    requires WellFormed(p)
  {
    if name.NoDevice? then (p, -ENODEV)
    else
      var i := FirstFree(p.slots, 0);
      if i == |p.slots| then (p, -EMFILE)
      else
        var p1 := Pool(p.slots[i := Claimed(name.dev, flags, name.Device?)], Max(i, p.maxFd));
        var status := if name.Device? && LockedByOther(p1, i) then -EACCES else driver;
        if status < 0 then (Release(p1, i), status) else (p1, i)
  }

  /** close() of a descriptor in use; `driver` is what the driver's close returns. */
  function Close(p: Pool, fd: int, driver: int): (r: (Pool, int))
    requires fd < |p.slots|
  {
    if fd < 0 then (p, -EBADFD) else (Release(p, fd), if driver < 0 then driver else 0)
  }

  /** alt_fd_lock: refused when a descriptor below the high-water mark has the same device. */
  predicate Shared(p: Pool, fd: nat)
    requires fd < |p.slots| && p.maxFd < |p.slots|
  {
    exists i :: 0 <= i < p.maxFd && i != fd && p.slots[i].dev == p.slots[fd].dev
  }

  datatype Request = TIOCEXCL | TIOCNXCL | OtherRequest

  /** ioctl() of a descriptor in use; `driver` is the driver's ioctl result, if it has one. */
  function Ioctl(p: Pool, fd: int, req: Request, driver: Option<int>): (r: (Pool, int))
    requires fd < |p.slots| && p.maxFd < |p.slots|
  {
    if fd < 0 then (p, -EBADFD)
    else
      var s := p.slots[fd];
      if IsDev(s) && req == TIOCEXCL then
        if Shared(p, fd) then (p, -EACCES)
        else (p.(slots := p.slots[fd := Locked(s)]), 0)
      else if IsDev(s) && req == TIOCNXCL then
        (p.(slots := p.slots[fd := Unlocked(s)]), 0)
      else (p, if driver.Some? then driver.value else -ENOTTY)
  }

  /** fcntl(F_SETFL); the descriptor need not be in use. */
  function Fcntl(p: Pool, fd: int, flags: bv32): (r: (Pool, int))
    requires fd < |p.slots|
  {
    if fd < 0 then (p, -EBADFD)
    else (p.(slots := p.slots[fd := Reflagged(p.slots[fd], flags)]), 0)
  }

  /** fcntl(F_GETFL): the flags without the two reserved bits, or None for -1. */
  function GetFlags(p: Pool, fd: int): Option<bv32>
    requires fd < |p.slots|
  {
    if fd < 0 then None else Some(p.slots[fd].flags & !ALT_FD_FLAGS_MASK)
  }

  /** alt_open_fd: move a freshly opened descriptor onto a standard one. */
  function Redirect(p: Pool, fd: nat, name: Lookup, flags: bv32, driver: int): (r: (Pool, int))
    requires WellFormed(p) && fd <= 2
  {
    var (p1, index) := Open(p, name, flags, driver);
    if index < 0 then (p1, index)
    else (Release(p1.(slots := p1.slots[fd := p1.slots[index]]), index), index)
  }

  datatype Op =
    | OpOpen(name: Lookup, flags: bv32, driver: int)
    | OpClose(fd: int, driver: int)
    | OpIoctl(fd: int, req: Request, iodriver: Option<int>)
    | OpFcntl(fd: int, flags: bv32)
    | OpRedirect(target: nat, name: Lookup, flags: bv32, driver: int)

  /** Descriptors passed to close and ioctl, which follow the device pointer, are negative (a failed
      open) or in use, those passed to fcntl are only in range; names that resolve give a structure;
      redirection is onto the three standard descriptors. */
  predicate Legal(p: Pool, op: Op) {
    match op
    case OpOpen(name, _, _) => name.NoDevice? || name.dev != 0
    case OpClose(fd, _) => fd < |p.slots| && (fd >= 0 ==> p.slots[fd].dev != 0)
    case OpIoctl(fd, _, _) => fd < |p.slots| && (fd >= 0 ==> p.slots[fd].dev != 0)
    case OpFcntl(fd, _) => fd < |p.slots|
    case OpRedirect(target, name, _, _) => target <= 2 && (name.NoDevice? || name.dev != 0)
  }

  function Apply(p: Pool, op: Op): (Pool, int)
    requires WellFormed(p) && Legal(p, op)
  {
    match op
    case OpOpen(name, flags, driver) => Open(p, name, flags, driver)
    case OpClose(fd, driver) => Close(p, fd, driver)
    case OpIoctl(fd, req, driver) => Ioctl(p, fd, req, driver)
    case OpFcntl(fd, flags) => Fcntl(p, fd, flags)
    case OpRedirect(target, name, flags, driver) => Redirect(p, target, name, flags, driver)
  }

  // ---------------------------------------------------------------- the invariant

  predicate WellFormed(p: Pool) {
    && |p.slots| >= 3 && (p.maxFd == -1 || 3 <= p.maxFd < |p.slots|)
    && forall i :: 0 <= i <= 2 ==> p.slots[i].dev != 0
  }

  /** Nothing above the high-water mark is in use; device descriptors are in use and lie within the
      mark, and only they can be locked. */
  predicate SlotOk(p: Pool, i: nat)
    requires i < |p.slots|
  {
    var s := p.slots[i];
    && (p.maxFd < i && i > 2 ==> s.dev == 0)
    && (IsDev(s) ==> i <= p.maxFd && s.dev != 0)
    && (Excl(s) ==> IsDev(s))
  }

  /** Slot j holds a lock, and slot i is another descriptor of the same device. */
  predicate Contends(p: Pool, i: nat, j: nat)
    requires i < |p.slots| && j < |p.slots|
  {
    i != j && Excl(p.slots[j]) && IsDev(p.slots[i]) && p.slots[i].dev == p.slots[j].dev
  }

  predicate Inv(p: Pool) {
    && WellFormed(p)
    && (forall i :: 0 <= i < |p.slots| ==> SlotOk(p, i))
    // another device descriptor of a locked device can only be a later one
    && (forall i, j :: 0 <= i < |p.slots| && 0 <= j < |p.slots| && Contends(p, i, j) ==> i > j)
  }

  /** The pool before any call: the standard descriptors refer to /dev/null. */
  function Init(n: nat, devNull: Dev): Pool
    requires n >= 3 && devNull != 0
  {
    Pool(seq(n, i => if i <= 2 then Slot(devNull, 0) else FREE), -1)
  }

  lemma InitInv(n: nat, devNull: Dev)
    requires n >= 3 && devNull != 0
    ensures Inv(Init(n, devNull)) && Clean(Init(n, devNull))
  {
  }

  /** Raising the mark. */
  lemma RaiseKeepsInv(p: Pool, i: nat)
    requires Inv(p) && 3 <= i < |p.slots|
    ensures Inv(p.(maxFd := Max(i, p.maxFd)))
  {
    hide Excl, IsDev, SameOpenFlags, Claimed, Locked, Unlocked, Reflagged;
    var p' := p.(maxFd := Max(i, p.maxFd));
    forall k | 0 <= k < |p.slots| ensures SlotOk(p', k) { assert SlotOk(p, k); }
    forall k, j | 0 <= k < |p.slots| && 0 <= j < |p.slots| && Contends(p', k, j) ensures k > j {
      assert Contends(p, k, j);
    }
  }

  /** Changing one slot, when the change contends with no lock in the wrong direction. */
  lemma SetSlotKeepsInv(p: Pool, k: nat, s: Slot)
    requires Inv(p) && k < |p.slots|
    requires var p' := p.(slots := p.slots[k := s]);
             && WellFormed(p') && SlotOk(p', k)
             && forall i :: 0 <= i < |p.slots| ==> (Contends(p', i, k) ==> i > k) && (Contends(p', k, i) ==> k > i)
    ensures Inv(p.(slots := p.slots[k := s]))
  {
    hide Excl, IsDev, SameOpenFlags, Claimed, Locked, Unlocked, Reflagged;
    var p' := p.(slots := p.slots[k := s]);
    forall i | 0 <= i < |p.slots| ensures SlotOk(p', i) { assert SlotOk(p, i); }
    forall i, j | 0 <= i < |p.slots| && 0 <= j < |p.slots| && Contends(p', i, j) ensures i > j {
      if i != k && j != k {
        assert Contends(p, i, j);
      }
    }
  }

  /** The slot an open tries, if it gets that far. */
  predicate Tries(p: Pool, name: Lookup, i: nat) {
    !name.NoDevice? && i == FirstFree(p.slots, 0) < |p.slots|
  }

  /** A failed open clears the slot it tried and touches no other; so it leaves every slot as it was
      exactly when that slot carried no stale flags. */
  lemma OpenFails(p: Pool, name: Lookup, flags: bv32, driver: int)
    requires Inv(p) && Open(p, name, flags, driver).1 < 0
    ensures var (after, i) := (Open(p, name, flags, driver).0.slots, FirstFree(p.slots, 0));
            && after == (if Tries(p, name, i) then p.slots[i := FREE] else p.slots)
            && (after == p.slots <==> (Tries(p, name, i) ==> p.slots[i].flags == 0))
  {
    hide Excl, IsDev, SameOpenFlags, Claimed, Locked, Unlocked, Reflagged;
    var i := FirstFree(p.slots, 0);
    if Tries(p, name, i) {
      assert p.slots[i := FREE][i] == FREE;
      assert p.slots[i] == FREE <==> p.slots[i].flags == 0;
      assert p.slots[i] == FREE ==> p.slots[i := FREE] == p.slots;
    }
  }

  /** A successful open returns the lowest free descriptor, for that device and with the caller's
      flags, and changes no other slot. */
  lemma OpenSucceeds(p: Pool, name: Lookup, flags: bv32, driver: int)
    requires Inv(p) && Open(p, name, flags, driver).1 >= 0
    ensures var (p', i) := Open(p, name, flags, driver);
            && 2 < i < |p.slots| && p.slots[i].dev == 0 && (forall k :: 0 <= k < i ==> p.slots[k].dev != 0)
            && !name.NoDevice? && p' == Pool(p.slots[i := p'.slots[i]], Max(i, p.maxFd))
            && p'.slots[i].dev == name.dev && !Excl(p'.slots[i]) && (IsDev(p'.slots[i]) <==> name.Device?)
            && SameOpenFlags(p'.slots[i].flags, flags)
            && (name.Device? ==> forall k :: 0 <= k < |p.slots| && Excl(p.slots[k]) ==> p.slots[k].dev != name.dev)
  {
    hide Excl, IsDev, SameOpenFlags, Claimed, Locked, Unlocked, Reflagged;
    var (p', i) := Open(p, name, flags, driver);
    if name.Device? {
      forall k | 0 <= k < |p.slots| && Excl(p.slots[k])
        ensures p.slots[k].dev != name.dev
      {
        assert SlotOk(p, k) && SlotOk(p, i);
        assert p'.slots[k] == p.slots[k];
      }
    }
  }

  /** An open succeeds exactly when the name resolves, a descriptor is free, no descriptor holds a
      lock on the device, and the driver agrees. */
  lemma OpenSucceedsExactly(p: Pool, name: Lookup, flags: bv32, driver: int)
    requires Inv(p)
    ensures Open(p, name, flags, driver).1 >= 0 <==>
              && !name.NoDevice? && driver >= 0
              && (exists i :: 0 <= i < |p.slots| && p.slots[i].dev == 0)
              && (name.Device? ==> forall k :: 0 <= k < |p.slots| && Excl(p.slots[k]) ==> p.slots[k].dev != name.dev)
  {
    hide Excl, IsDev, SameOpenFlags, Claimed, Locked, Unlocked, Reflagged;
    if Open(p, name, flags, driver).1 >= 0 {
      OpenSucceeds(p, name, flags, driver);
    } else if !name.NoDevice? && FirstFree(p.slots, 0) < |p.slots| && driver >= 0 {
      var i := FirstFree(p.slots, 0);
      var p1 := Pool(p.slots[i := Claimed(name.dev, flags, name.Device?)], Max(i, p.maxFd));
      var k :| 0 <= k <= p1.maxFd && k != i && p1.slots[k].dev == p1.slots[i].dev && Excl(p1.slots[k]);
      assert p1.slots[k] == p.slots[k];
    }
  }

  /** Closing undoes opening, up to stale flags of the slot: every slot is as it was exactly when
      the slot carried none. */
  lemma CloseUndoesOpen(p: Pool, name: Lookup, flags: bv32, driver: int, closing: int)
    requires Inv(p) && Open(p, name, flags, driver).1 >= 0
    ensures var (p', i) := Open(p, name, flags, driver);
            && i < |p'.slots| == |p.slots|
            && Close(p', i, closing).0.slots == p.slots[i := FREE]
            && (Close(p', i, closing).0.slots == p.slots <==> p.slots[i].flags == 0)
  {
    hide Excl, IsDev, SameOpenFlags, Claimed, Locked, Unlocked, Reflagged;
    OpenSucceeds(p, name, flags, driver);
    var i := Open(p, name, flags, driver).1;
    assert p.slots[i := FREE][i] == FREE;
    assert p.slots[i] == FREE <==> p.slots[i].flags == 0;
    assert p.slots[i] == FREE ==> p.slots[i := FREE] == p.slots;
  }

  /** Unlocking undoes a granted lock. */
  lemma UnlockUndoesLock(p: Pool, fd: nat, driver: Option<int>)
    requires Inv(p) && fd < |p.slots| && IsDev(p.slots[fd]) && !Excl(p.slots[fd])
    ensures var p' := Ioctl(p, fd, TIOCEXCL, driver).0;
            |p'.slots| == |p.slots| && p'.maxFd == p.maxFd && Ioctl(p', fd, TIOCNXCL, driver) == (p, 0)
  {
    hide Excl, IsDev, Locked, Unlocked, Shared;
    UnlockedAgain(p.slots[fd]);
    var s := p.slots[fd];
    assert p.slots[fd := s] == p.slots && p.slots[fd := Locked(s)][fd := s] == p.slots;
  }

  lemma UnlockedAgain(s: Slot)
    requires !Excl(s)
    ensures Unlocked(s) == s && Unlocked(Locked(s)) == s
  {
  }

  lemma OpenKeepsInv(p: Pool, name: Lookup, flags: bv32, driver: int)
    requires Inv(p) && (name.NoDevice? || name.dev != 0)
    ensures Inv(Open(p, name, flags, driver).0)
  {
    hide Excl, IsDev, SameOpenFlags, Claimed, Locked, Unlocked, Reflagged;
    var (p', i) := Open(p, name, flags, driver);
    var free := FirstFree(p.slots, 0);
    if i < 0 {
      OpenFails(p, name, flags, driver);
      if Tries(p, name, free) {
        RaiseKeepsInv(p, free);
        FreeFlags();
        SetSlotKeepsInv(p.(maxFd := Max(free, p.maxFd)), free, FREE);
      }
    } else {
      OpenSucceeds(p, name, flags, driver);
      RaiseKeepsInv(p, i);
      SetSlotKeepsInv(p.(maxFd := Max(i, p.maxFd)), i, p'.slots[i]);
    }
  }

  lemma ReleaseKeepsInv(p: Pool, fd: int)
    requires Inv(p) && fd < |p.slots|
    ensures Inv(Release(p, fd))
  {
    if fd > 2 {
      SetSlotKeepsInv(p, fd, FREE);
    }
  }

  /** Granting a lock: any other device descriptor of the device is the last one. */
  lemma GrantKeepsInv(p: Pool, fd: nat, s: Slot)
    requires Inv(p) && fd < |p.slots| && IsDev(p.slots[fd]) && !Shared(p, fd)
    requires s.dev == p.slots[fd].dev && Excl(s) && IsDev(s)
    ensures Inv(p.(slots := p.slots[fd := s]))
  {
    hide Excl, IsDev, SameOpenFlags, Claimed, Locked, Unlocked, Reflagged;
    var p' := p.(slots := p.slots[fd := s]);
    assert SlotOk(p, fd);
    forall i | 0 <= i < |p.slots|
      ensures (Contends(p', i, fd) ==> i > fd) && (Contends(p', fd, i) ==> fd > i)
    {
      assert SlotOk(p, i);
      var _ := Contends(p, fd, i);
    }
    SetSlotKeepsInv(p, fd, s);
  }

  /** Changing flags other than DEV without setting EXCL. */
  lemma ReflagKeepsInv(p: Pool, fd: nat, s: Slot)
    requires Inv(p) && fd < |p.slots|
    requires s.dev == p.slots[fd].dev && (IsDev(s) <==> IsDev(p.slots[fd])) && (Excl(s) ==> Excl(p.slots[fd]))
    ensures Inv(p.(slots := p.slots[fd := s]))
  {
    hide Excl, IsDev, SameOpenFlags, Claimed, Locked, Unlocked, Reflagged;
    var p' := p.(slots := p.slots[fd := s]);
    assert SlotOk(p, fd);
    forall i | 0 <= i < |p.slots|
      ensures (Contends(p', i, fd) ==> i > fd) && (Contends(p', fd, i) ==> fd > i)
    {
      assert Contends(p', i, fd) ==> Contends(p, i, fd);
      assert Contends(p', fd, i) ==> Contends(p, fd, i);
    }
    SetSlotKeepsInv(p, fd, s);
  }

  lemma IoctlKeepsInv(p: Pool, fd: int, req: Request, driver: Option<int>)
    requires Inv(p) && Legal(p, OpIoctl(fd, req, driver))
    ensures Inv(Ioctl(p, fd, req, driver).0)
  {
    hide Excl, IsDev, SameOpenFlags, Claimed, Locked, Unlocked, Reflagged;
    if fd >= 0 && IsDev(p.slots[fd]) {
      var s := p.slots[fd];
      if req == TIOCEXCL && !Shared(p, fd) {
        GrantKeepsInv(p, fd, Locked(s));
      } else if req == TIOCNXCL {
        ReflagKeepsInv(p, fd, Unlocked(s));
      }
    }
  }

  lemma FcntlKeepsInv(p: Pool, fd: int, flags: bv32)
    requires Inv(p) && Legal(p, OpFcntl(fd, flags))
    ensures Inv(Fcntl(p, fd, flags).0)
  {
    hide Excl, IsDev, SameOpenFlags, Claimed, Locked, Unlocked, Reflagged;
    if fd >= 0 {
      ReflagKeepsInv(p, fd, Reflagged(p.slots[fd], flags));
    }
  }

  lemma RedirectKeepsInv(p: Pool, target: nat, name: Lookup, flags: bv32, driver: int)
    requires Inv(p) && Legal(p, OpRedirect(target, name, flags, driver))
    ensures Inv(Redirect(p, target, name, flags, driver).0)
  {
    hide Excl, IsDev, SameOpenFlags, Claimed, Locked, Unlocked, Reflagged;
    var (p1, i) := Open(p, name, flags, driver);
    OpenKeepsInv(p, name, flags, driver);
    if i >= 0 {
      OpenSucceeds(p, name, flags, driver);
      forall k | 0 <= k < |p1.slots| && Excl(p1.slots[k]) && IsDev(p1.slots[i])
        ensures p1.slots[k].dev != p1.slots[i].dev
      {
        assert k == i || p1.slots[k] == p.slots[k];
      }
      SetSlotKeepsInv(p1, target, p1.slots[i]);
      ReleaseKeepsInv(p1.(slots := p1.slots[target := p1.slots[i]]), i);
    }
  }

  lemma StepKeepsInv(p: Pool, op: Op)
    requires Inv(p) && Legal(p, op)
    ensures Inv(Apply(p, op).0)
  {
    match op
    case OpOpen(name, flags, driver) => OpenKeepsInv(p, name, flags, driver);
    case OpClose(fd, driver) => ReleaseKeepsInv(p, fd);
    case OpIoctl(fd, req, driver) => IoctlKeepsInv(p, fd, req, driver);
    case OpFcntl(fd, flags) => FcntlKeepsInv(p, fd, flags);
    case OpRedirect(target, name, flags, driver) => RedirectKeepsInv(p, target, name, flags, driver);
  }

  // ---------------------------------------------------------------- every sequence of calls

  /** Each call is legal in the state the calls before it leave. */
  predicate CanRun(p: Pool, ops: seq<Op>)
    decreases |ops|
  {
    ops == [] || (WellFormed(p) && Legal(p, ops[0]) && CanRun(Apply(p, ops[0]).0, ops[1..]))
  }

  function Run(p: Pool, ops: seq<Op>): Pool
    requires CanRun(p, ops)
    decreases |ops|
  {
    if ops == [] then p else Run(Apply(p, ops[0]).0, ops[1..])
  }

  /** Results of the calls, in order. */
  function Results(p: Pool, ops: seq<Op>): (r: seq<int>)
    requires CanRun(p, ops)
    ensures |r| == |ops|
    decreases |ops|
  {
    if ops == [] then []
    else var (p', rc) := Apply(p, ops[0]); [rc] + Results(p', ops[1..])
  }

  lemma {:induction false} RunKeepsInv(p: Pool, ops: seq<Op>)
    requires Inv(p) && CanRun(p, ops)
    ensures Inv(Run(p, ops))
    decreases |ops|
  {
    if ops != [] {
      StepKeepsInv(p, ops[0]);
      RunKeepsInv(Apply(p, ops[0]).0, ops[1..]);
    }
  }

  // ---------------------------------------------------------------- results and single slots

  /** Why an open fails, in the order in which the reasons count. */
  lemma OpenFailsWith(p: Pool, name: Lookup, flags: bv32, driver: int)
    requires Inv(p) && Open(p, name, flags, driver).1 < 0
    ensures Open(p, name, flags, driver).1 ==
              if name.NoDevice? then -19
              else if forall i :: 0 <= i < |p.slots| ==> p.slots[i].dev != 0 then -24
              else if name.Device? && exists k :: 0 <= k < |p.slots| && Excl(p.slots[k]) && p.slots[k].dev == name.dev then -13
              else driver
  {
    hide Excl, IsDev, SameOpenFlags, Claimed, Locked, Unlocked, Reflagged;
    var i := FirstFree(p.slots, 0);
    if Tries(p, name, i) && name.Device? {
      var p1 := Pool(p.slots[i := Claimed(name.dev, flags, true)], Max(i, p.maxFd));
      if k :| 0 <= k < |p.slots| && Excl(p.slots[k]) && p.slots[k].dev == name.dev {
        assert SlotOk(p, k) && SlotOk(p, i);
        assert p1.slots[k] == p.slots[k];
        assert LockedByOther(p1, i);
      }
    }
  }

  /** close() frees its descriptor above 2 and no other slot; its answer is the driver's if that is
      negative. */
  lemma CloseExact(p: Pool, fd: int, driver: int)
    requires fd < |p.slots|
    ensures var (p', rc) := Close(p, fd, driver);
            && rc == (if fd < 0 then -77 else if driver < 0 then driver else 0)
            && p'.maxFd == p.maxFd && |p'.slots| == |p.slots|
            && forall k :: 0 <= k < |p.slots| ==> p'.slots[k] == if k == fd && k > 2 then Slot(0, 0) else p.slots[k]
  {
  }

  /** ioctl() locks and unlocks a device by setting and clearing one bit of its slot; everything else
      goes to the driver and changes nothing. */
  lemma IoctlExact(p: Pool, fd: int, req: Request, driver: Option<int>)
    requires Inv(p) && fd < |p.slots|
    ensures var (p', rc) := Ioctl(p, fd, req, driver);
            && p'.maxFd == p.maxFd && |p'.slots| == |p.slots|
            && (forall k :: 0 <= k < |p.slots| && k != fd ==> p'.slots[k] == p.slots[k])
            && if fd < 0 then rc == -77
               else var (s, s') := (p.slots[fd], p'.slots[fd]);
                 && s'.dev == s.dev && SameOpenFlags(s'.flags, s.flags) && (IsDev(s') <==> IsDev(s))
                 && if IsDev(s) && req == TIOCNXCL then rc == 0 && !Excl(s')
                    else if IsDev(s) && req == TIOCEXCL then
                      (rc == 0 && Excl(s')) || (rc == -13 && s' == s)
                    else s' == s && rc == if driver.Some? then driver.value else -25
  {
    hide Excl, IsDev, SameOpenFlags, Locked, Unlocked, Reflagged;
    if fd >= 0 {
      FlagsAgree(p.slots[fd].flags);
    }
  }

  lemma FlagsAgree(f: bv32)
    ensures SameOpenFlags(f, f)
  {
  }

  /** fcntl gives two flags exactly the bits of its argument, cleared ones included, and leaves every
      other bit; it changes no other slot. */
  lemma FcntlExact(p: Pool, fd: int, flags: bv32)
    requires fd < |p.slots|
    ensures var (p', rc) := Fcntl(p, fd, flags);
            && rc == (if fd < 0 then -77 else 0) && p'.maxFd == p.maxFd && |p'.slots| == |p.slots|
            && (forall k :: 0 <= k < |p.slots| && k != fd ==> p'.slots[k] == p.slots[k])
            && (fd >= 0 ==>
                  && p'.slots[fd].dev == p.slots[fd].dev
                  && p'.slots[fd].flags & 0x4008 == flags & 0x4008
                  && p'.slots[fd].flags & 0xFFFF_BFF7 == p.slots[fd].flags & 0xFFFF_BFF7)
  {
    if fd >= 0 {
      ReflaggedBits(p.slots[fd].flags, flags);
    }
  }

  lemma ReflaggedBits(f: bv32, flags: bv32)
    ensures ((f & !ALT_FCNTL_FLAGS_MASK) | (flags & ALT_FCNTL_FLAGS_MASK)) & 0x4008 == flags & 0x4008
    ensures ((f & !ALT_FCNTL_FLAGS_MASK) | (flags & ALT_FCNTL_FLAGS_MASK)) & 0xFFFF_BFF7 == f & 0xFFFF_BFF7
  {
  }

  /** A successful redirection gives the standard descriptor the device and the flags of the open,
      and frees the descriptor that was opened; no other slot changes. */
  lemma RedirectMoves(p: Pool, fd: nat, name: Lookup, flags: bv32, driver: int)
    requires Inv(p) && fd <= 2 && Redirect(p, fd, name, flags, driver).1 >= 0
    ensures var (p', i) := Redirect(p, fd, name, flags, driver);
            && 2 < i < |p.slots| == |p'.slots| && p.slots[i].dev == 0
            && p'.slots[fd].dev == name.dev && SameOpenFlags(p'.slots[fd].flags, flags)
            && (IsDev(p'.slots[fd]) <==> name.Device?) && !Excl(p'.slots[fd])
            && p'.slots[i] == Slot(0, 0)
            && forall k :: 0 <= k < |p.slots| && k != fd && k != i ==> p'.slots[k] == p.slots[k]
  {
    hide Excl, IsDev, SameOpenFlags, Claimed, Locked, Unlocked, Reflagged;
    OpenSucceeds(p, name, flags, driver);
  }

  /** The calls that may change what descriptor j was opened with. */
  predicate Reopens(p: Pool, op: Op, j: nat)
    requires WellFormed(p) && Legal(p, op)
  {
    match op
    case OpFcntl(fd, _) => fd == j
    case OpClose(fd, _) => fd == j && j > 2
    case OpRedirect(target, _, _, _) => target == j && Apply(p, op).1 >= 0
    case _ => false
  }

  predicate SameOpening(s: Slot, t: Slot) {
    s.dev == t.dev && SameOpenFlags(s.flags, t.flags) && (IsDev(s) <==> IsDev(t))
  }

  lemma OpeningKept(p: Pool, op: Op, j: nat)
    requires Inv(p) && Legal(p, op) && j < |p.slots| && p.slots[j].dev != 0 && !Reopens(p, op, j)
    ensures |Apply(p, op).0.slots| == |p.slots| && SameOpening(Apply(p, op).0.slots[j], p.slots[j])
  {
    hide Excl, IsDev, SameOpenFlags, Claimed, Locked, Unlocked, Reflagged;
    FlagsAgree(p.slots[j].flags);
    match op
    case OpOpen(name, flags, driver) =>
      if Open(p, name, flags, driver).1 < 0 {
        OpenFails(p, name, flags, driver);
      } else {
        OpenSucceeds(p, name, flags, driver);
      }
    case OpRedirect(target, name, flags, driver) =>
      if Open(p, name, flags, driver).1 < 0 {
        OpenFails(p, name, flags, driver);
      } else {
        RedirectMoves(p, target, name, flags, driver);
      }
    case OpIoctl(fd, req, driver) => IoctlExact(p, fd, req, driver);
    case OpClose(fd, driver) =>
    case OpFcntl(fd, flags) =>
  }

  /** Over every run, a descriptor in use keeps the device and the flags it was opened with until an
      fcntl on it, a close of it above 2, or a redirection onto it that succeeds. */
  lemma {:induction false} OpeningLasts(p: Pool, ops: seq<Op>, k: nat, j: nat)
    requires Inv(p) && CanRun(p, ops) && k <= |ops| && j < |p.slots| && p.slots[j].dev != 0
    requires forall i :: 0 <= i < k ==> (StateAt(p, ops, i); !Reopens(States(p, ops)[i], ops[i], j))
    ensures var s := States(p, ops)[k]; |s.slots| == |p.slots| && SameOpening(s.slots[j], p.slots[j])
    decreases k
  {
    if k > 0 {
      OpeningLasts(p, ops, k - 1, j);
      StateAt(p, ops, k - 1);
      OpeningKept(States(p, ops)[k - 1], ops[k - 1], j);
    }
  }

  /** The flags given to a successful open read back over every run, until a call that may change
      them; a lock does not show in them. */
  lemma FlagsReadBack(p: Pool, name: Lookup, flags: bv32, driver: int, ops: seq<Op>, k: nat)
    requires Inv(p) && (name.NoDevice? || name.dev != 0) && Open(p, name, flags, driver).1 >= 0
    requires var (p', i) := Open(p, name, flags, driver);
             && Inv(p') && CanRun(p', ops) && k <= |ops|
             && forall j :: 0 <= j < k ==> (StateAt(p', ops, j); !Reopens(States(p', ops)[j], ops[j], i))
    ensures var (p', i) := Open(p, name, flags, driver);
            var s := States(p', ops)[k];
            i < |s.slots| && GetFlags(s, i) == Some(flags & 0x3FFF_FFFF)
  {
    hide Open, Reopens, SameOpenFlags, Excl, IsDev;
    var (p', i) := Open(p, name, flags, driver);
    OpenSucceeds(p, name, flags, driver);
    OpeningLasts(p', ops, k, i);
    var s := States(p', ops)[k];
    SameAreEqual(s.slots[i].flags, p'.slots[i].flags, flags);
  }

  lemma SameAreEqual(f: bv32, g: bv32, h: bv32)
    requires SameOpenFlags(f, g) && SameOpenFlags(g, h)
    ensures f & !ALT_FD_FLAGS_MASK == h & 0x3FFF_FFFF
  {
  }

  // ---------------------------------------------------------------- stale flags

  /** Free slots carry no flags. */
  predicate Clean(p: Pool) {
    forall i :: 0 <= i < |p.slots| && p.slots[i].dev == 0 ==> p.slots[i].flags == 0
  }

  /** An fcntl that sets a flag of a free slot. */
  predicate Soils(p: Pool, op: Op)
    requires Legal(p, op)
  {
    op.OpFcntl? && op.fd >= 0 && p.slots[op.fd].dev == 0 && op.flags & ALT_FCNTL_FLAGS_MASK != 0
  }

  /** Every call keeps free slots without flags, but for exactly that one. */
  lemma CleanStep(p: Pool, op: Op)
    requires Inv(p) && Clean(p) && Legal(p, op)
    ensures Clean(Apply(p, op).0) <==> !Soils(p, op)
  {
    hide Excl, IsDev, Claimed, Locked, Unlocked;
    match op
    case OpOpen(name, flags, driver) =>
      CleanOpen(p, name, flags, driver);
    case OpRedirect(target, name, flags, driver) =>
      CleanOpen(p, name, flags, driver);
    case OpFcntl(fd, flags) =>
      if fd >= 0 && p.slots[fd].dev == 0 {
        FreshFlags(flags);
        assert Apply(p, op).0.slots[fd] == Reflagged(FREE, flags);
      }
    case OpClose(_, _) =>
    case OpIoctl(_, _, _) =>
  }

  lemma FreshFlags(flags: bv32)
    ensures Reflagged(FREE, flags).flags == flags & ALT_FCNTL_FLAGS_MASK
  {
  }

  lemma CleanOpen(p: Pool, name: Lookup, flags: bv32, driver: int)
    requires Inv(p) && Clean(p) && (name.NoDevice? || name.dev != 0)
    ensures Clean(Open(p, name, flags, driver).0)
    ensures var (p', i) := Open(p, name, flags, driver); i >= 0 ==> 2 < i < |p.slots| && p'.slots[i].dev != 0
  {
    hide Excl, IsDev, SameOpenFlags, Claimed, Locked, Unlocked, Reflagged;
    if Open(p, name, flags, driver).1 < 0 {
      OpenFails(p, name, flags, driver);
    } else {
      OpenSucceeds(p, name, flags, driver);
    }
  }

  /** Over every run from a pool whose free slots carry no flags: they carry none at the end, unless
      an fcntl has set flags of a free slot. */
  lemma {:induction false} CleanRun(p: Pool, ops: seq<Op>)
    requires Inv(p) && Clean(p) && CanRun(p, ops)
    requires forall k :: 0 <= k < |ops| ==> (StateAt(p, ops, k); !Soils(States(p, ops)[k], ops[k]))
    ensures Clean(Run(p, ops))
    decreases |ops|
  {
    if ops != [] {
      var p' := Apply(p, ops[0]).0;
      CleanStep(p, ops[0]);
      StepKeepsInv(p, ops[0]);
      forall k | 0 <= k < |ops| - 1
        ensures (StateAt(p', ops[1..], k); !Soils(States(p', ops[1..])[k], ops[1..][k]))
      {
        assert States(p', ops[1..])[k] == States(p, ops)[k + 1];
      }
      CleanRun(p', ops[1..]);
    }
  }

  // ---------------------------------------------------------------- exclusive access

  /** Descriptor j holds a lock on device d. */
  predicate Holds(p: Pool, j: nat, d: Dev) {
    j < |p.slots| && p.slots[j].dev == d && Excl(p.slots[j])
  }

  /** The calls that end the lock of descriptor j: unlock, close above 2, and a redirection onto it
      that succeeds. */
  predicate Ends(p: Pool, op: Op, j: nat)
    requires WellFormed(p) && Legal(p, op)
  {
    match op
    case OpIoctl(fd, req, _) => fd == j && req == TIOCNXCL
    case OpClose(fd, _) => fd == j && j > 2
    case OpRedirect(target, _, _, _) => target == j && Apply(p, op).1 >= 0
    case _ => false
  }

  predicate OpensDevice(op: Op, d: Dev) {
    (op.OpOpen? || op.OpRedirect?) && op.name == Device(d)
  }

  /** One call: the lock is gone after it exactly when the call is one of those that end it, and
      no open of the device succeeds while it is held. */
  lemma HeldStep(p: Pool, j: nat, d: Dev, op: Op)
    requires Inv(p) && Holds(p, j, d) && d != 0 && Legal(p, op)
    ensures Holds(Apply(p, op).0, j, d) <==> !Ends(p, op, j)
    ensures OpensDevice(op, d) ==> Apply(p, op).1 < 0
  {
    hide Excl, IsDev, SameOpenFlags, Claimed, Locked, Unlocked, Reflagged;
    match op
    case OpOpen(name, flags, driver) =>
      OpenRefusedOrElsewhere(p, j, d, name, flags, driver);
    case OpRedirect(target, name, flags, driver) =>
      OpenRefusedOrElsewhere(p, j, d, name, flags, driver);
    case OpClose(fd, driver) =>
      FreeFlags();
    case OpIoctl(fd, req, driver) =>
      assert SlotOk(p, j);
    case OpFcntl(fd, flags) =>
  }

  lemma OpenRefusedOrElsewhere(p: Pool, j: nat, d: Dev, name: Lookup, flags: bv32, driver: int)
    requires Inv(p) && Holds(p, j, d) && d != 0 && (name.NoDevice? || name.dev != 0)
    ensures var (p', i) := Open(p, name, flags, driver);
            if i < 0 then |p'.slots| == |p.slots| && forall k :: 0 <= k < |p.slots| && p.slots[k].dev != 0 ==> p'.slots[k] == p.slots[k]
            else name != Device(d) && 2 < i < |p.slots| && i != j && p'.slots == p.slots[i := p'.slots[i]] && !Excl(p'.slots[i])
  {
    hide Excl, IsDev, SameOpenFlags, Claimed, Locked, Unlocked, Reflagged;
    if Open(p, name, flags, driver).1 < 0 {
      OpenFails(p, name, flags, driver);
    } else {
      OpenSucceeds(p, name, flags, driver);
    }
  }

  /** The pools a run goes through, from the one it starts with. */
  function States(p: Pool, ops: seq<Op>): (r: seq<Pool>)
    requires CanRun(p, ops)
    ensures |r| == |ops| + 1 && r[0] == p
    decreases |ops|
  {
    if ops == [] then [p] else [p] + States(Apply(p, ops[0]).0, ops[1..])
  }

  lemma {:induction false} StateAt(p: Pool, ops: seq<Op>, k: nat)
    requires Inv(p) && CanRun(p, ops) && k < |ops|
    ensures var s := States(p, ops)[k];
            && Inv(s) && Legal(s, ops[k])
            && (States(p, ops)[k + 1], Results(p, ops)[k]) == Apply(s, ops[k])
    decreases k
  {
    StepKeepsInv(p, ops[0]);
    if k > 0 {
      StateAt(Apply(p, ops[0]).0, ops[1..], k - 1);
    }
  }

  /** The first k calls of a run leave the lock of descriptor j alone. */
  predicate Spared(p: Pool, ops: seq<Op>, k: nat, j: nat)
    requires Inv(p) && CanRun(p, ops) && k <= |ops|
  {
    forall i :: 0 <= i < k ==> (StateAt(p, ops, i); !Ends(States(p, ops)[i], ops[i], j))
  }

  /** Over every run, a held lock stays held exactly as long as no call ends it, and until then
      every open of the device and every redirection to it fails. */
  lemma {:induction false} LockExcludes(p: Pool, j: nat, d: Dev, ops: seq<Op>, k: nat)
    requires Inv(p) && Holds(p, j, d) && d != 0 && CanRun(p, ops) && k <= |ops|
    ensures Spared(p, ops, k, j) <==> forall i :: 0 <= i <= k ==> Holds(States(p, ops)[i], j, d)
    ensures Spared(p, ops, k, j) ==> forall i :: 0 <= i <= k && i < |ops| && OpensDevice(ops[i], d) ==> Results(p, ops)[i] < 0
    decreases k
  {
    if k > 0 {
      LockExcludes(p, j, d, ops, k - 1);
      StateAt(p, ops, k - 1);
      if Holds(States(p, ops)[k - 1], j, d) {
        HeldStep(States(p, ops)[k - 1], j, d, ops[k - 1]);
      }
    }
    if k < |ops| && Holds(States(p, ops)[k], j, d) {
      StateAt(p, ops, k);
      HeldStep(States(p, ops)[k], j, d, ops[k]);
    }
  }

  /** From the initial pool: redirect standard output to a device, lock it, close it, open the
      device again.  The close succeeds and the open is refused: the lock outlives the close. */
  lemma LockOutlivesClose(n: nat, devNull: Dev, d: Dev)
    requires n >= 4 && devNull != 0 && d != 0 && d != devNull
    ensures var ops := [OpRedirect(1, Device(d), 0, 0), OpIoctl(1, TIOCEXCL, None), OpClose(1, 0), OpOpen(Device(d), 0, 0)];
            && CanRun(Init(n, devNull), ops)
            && Results(Init(n, devNull), ops) == [3, 0, 0, -EACCES]
            && Holds(Run(Init(n, devNull), ops), 1, d)
  {
    hide Excl, IsDev, Claimed, Locked;
    var p0 := Init(n, devNull);
    FirstFreeIs(p0.slots, 3);
    FreeFlags();
    var mine := Claimed(d, 0, true);
    var p1 := Pool(p0.slots[1 := mine], 3);
    assert p0.slots[3 := mine][1 := mine][3 := FREE] == p1.slots;
    assert Open(p0, Device(d), 0, 0) == (Pool(p0.slots[3 := mine], 3), 3);
    assert Redirect(p0, 1, Device(d), 0, 0) == (p1, 3);
    var p2 := Pool(p1.slots[1 := Locked(mine)], 3);
    assert Ioctl(p1, 1, TIOCEXCL, None) == (p2, 0);
    assert Close(p2, 1, 0) == (p2, 0);
    FirstFreeIs(p2.slots, 3);
    assert LockedByOther(Pool(p2.slots[3 := mine], 3), 3) by {
      assert Pool(p2.slots[3 := mine], 3).slots[1] == Locked(mine);
    }
    var (p3, o4) := (Open(p2, Device(d), 0, 0).0, OpOpen(Device(d), 0, 0));
    RunCons(p2, o4, []);
    RunCons(p2, OpClose(1, 0), [o4]);
    RunCons(p1, OpIoctl(1, TIOCEXCL, None), [OpClose(1, 0), o4]);
    RunCons(p0, OpRedirect(1, Device(d), 0, 0), [OpIoctl(1, TIOCEXCL, None), OpClose(1, 0), o4]);
  }

  const O_NONBLOCK: bv32 := 0x4000

  /** From the initial pool: open a device, close it, set O_NONBLOCK on the closed descriptor.  The
      free slot then carries the flag, and an open that the driver refuses wipes it. */
  lemma ClosedDescriptorKeepsFlags(n: nat, devNull: Dev, d: Dev, flags: bv32)
    requires n >= 4 && devNull != 0 && d != 0
    ensures var ops := [OpOpen(Device(d), 0, 0), OpClose(3, 0), OpFcntl(3, O_NONBLOCK)];
            && CanRun(Init(n, devNull), ops)
            && Results(Init(n, devNull), ops) == [3, 0, 0]
            && var p := Run(Init(n, devNull), ops);
            && |p.slots| == n && p.slots[3] == Slot(0, O_NONBLOCK) && Inv(p)
            && Open(p, FileSystem(d), flags, -1).1 < 0
            && Open(p, FileSystem(d), flags, -1).0.slots != p.slots
  {
    hide Excl, IsDev, Claimed, Locked, Unlocked;
    var p0 := Init(n, devNull);
    InitInv(n, devNull);
    FirstFreeIs(p0.slots, 3);
    var mine := Claimed(d, 0, true);
    var p1 := Pool(p0.slots[3 := mine], 3);
    FreeFlags();
    assert !LockedByOther(p1, 3);
    assert Open(p0, Device(d), 0, 0) == (p1, 3);
    var p2 := Pool(p0.slots, 3);
    assert p1.slots[3 := FREE] == p0.slots;
    assert Close(p1, 3, 0) == (p2, 0);
    var p3 := Pool(p0.slots[3 := Slot(0, O_NONBLOCK)], 3);
    NonBlockSet();
    assert Fcntl(p2, 3, O_NONBLOCK) == (p3, 0);
    RunCons(p2, OpFcntl(3, O_NONBLOCK), []);
    RunCons(p1, OpClose(3, 0), [OpFcntl(3, O_NONBLOCK)]);
    RunCons(p0, OpOpen(Device(d), 0, 0), [OpClose(3, 0), OpFcntl(3, O_NONBLOCK)]);
    RunKeepsInv(p0, [OpOpen(Device(d), 0, 0)] + [OpClose(3, 0), OpFcntl(3, O_NONBLOCK)]);
    FirstFreeIs(p3.slots, 3);
    OpenFails(p3, FileSystem(d), flags, -1);
  }

  lemma NonBlockSet()
    ensures Reflagged(FREE, O_NONBLOCK) == Slot(0, O_NONBLOCK)
  {
  }

  lemma RunCons(p: Pool, op: Op, ops: seq<Op>)
    requires WellFormed(p) && Legal(p, op) && CanRun(Apply(p, op).0, ops)
    ensures CanRun(p, [op] + ops) && Run(p, [op] + ops) == Run(Apply(p, op).0, ops)
    ensures Results(p, [op] + ops) == [Apply(p, op).1] + Results(Apply(p, op).0, ops)
  {
    assert ([op] + ops)[1..] == ops;
  }

  /** At most one descriptor of a device holds a lock. */
  lemma OneHolder(p: Pool, i: nat, j: nat, d: Dev)
    requires Inv(p) && Holds(p, i, d) && Holds(p, j, d)
    ensures i == j
  {
    hide Excl, IsDev, SameOpenFlags, Claimed, Locked, Unlocked, Reflagged;
    assert SlotOk(p, i) && SlotOk(p, j);
    var first, second := Contends(p, i, j), Contends(p, j, i);
  }

  /** No other descriptor refers to this one's device. */
  predicate SoleUser(p: Pool, fd: nat)
    requires fd < |p.slots|
  {
    forall i :: 0 <= i < |p.slots| && i != fd ==> p.slots[i].dev != p.slots[fd].dev
  }

  /** The documented promise: the sole user of a device is granted the lock.  That nobody else is
      holds exactly when the scan finds another user or the descriptor at the high-water mark,
      which the scan leaves out, is not one. */
  lemma GrantIsSoleUse(p: Pool, fd: nat, driver: Option<int>)
    requires Inv(p) && fd < |p.slots| && IsDev(p.slots[fd])
    ensures 0 <= p.maxFd < |p.slots|
    ensures SoleUser(p, fd) ==> Ioctl(p, fd, TIOCEXCL, driver).1 == 0
    ensures (Ioctl(p, fd, TIOCEXCL, driver).1 == 0 ==> SoleUser(p, fd)) <==>
            (Shared(p, fd) || fd == p.maxFd || p.slots[p.maxFd].dev != p.slots[fd].dev)
  {
    hide Excl, IsDev, SameOpenFlags, Claimed, Locked, Unlocked, Reflagged;
    assert SlotOk(p, fd);
    if !Shared(p, fd) && (fd == p.maxFd || p.slots[p.maxFd].dev != p.slots[fd].dev) {
      forall i | 0 <= i < |p.slots| && i != fd
        ensures p.slots[i].dev != p.slots[fd].dev
      {
        assert SlotOk(p, i);
      }
    }
  }

  /** From the initial pool: open a device twice, lock the first descriptor.  The lock is granted
      although the second descriptor is open on the same device. */
  lemma GrantWhileShared(n: nat, devNull: Dev, d: Dev)
    requires n >= 5 && devNull != 0 && d != 0 && d != devNull
    ensures var ops := [OpOpen(Device(d), 0, 0), OpOpen(Device(d), 0, 0), OpIoctl(3, TIOCEXCL, None)];
            && CanRun(Init(n, devNull), ops)
            && Results(Init(n, devNull), ops) == [3, 4, 0]
            && |Run(Init(n, devNull), ops).slots| == n && Run(Init(n, devNull), ops).slots[4].dev == d
  {
    hide Excl, IsDev, Claimed, Locked;
    var p0 := Init(n, devNull);
    FirstFreeIs(p0.slots, 3);
    var p1 := Pool(p0.slots[3 := Claimed(d, 0, true)], 3);
    FreeFlags();
    assert Open(p0, Device(d), 0, 0) == (p1, 3);
    FirstFreeIs(p1.slots, 4);
    var p2 := Pool(p1.slots[4 := Claimed(d, 0, true)], 4);
    assert Open(p1, Device(d), 0, 0) == (p2, 4);
    var p3 := p2.(slots := p2.slots[3 := Locked(p2.slots[3])]);
    assert Ioctl(p2, 3, TIOCEXCL, None) == (p3, 0);
    var (open, lock) := (OpOpen(Device(d), 0, 0), OpIoctl(3, TIOCEXCL, None));
    RunCons(p2, lock, []);
    RunCons(p1, open, [lock]);
    RunCons(p0, open, [open, lock]);
  }

  lemma FreeFlags()
    ensures !Excl(FREE) && !IsDev(FREE)
    ensures forall dev: Dev :: !Excl(Slot(dev, 0)) && !IsDev(Slot(dev, 0))
  {
  }

  lemma FirstFreeIs(slots: seq<Slot>, k: nat)
    requires k < |slots| && slots[k].dev == 0 && forall i :: 0 <= i < k ==> slots[i].dev != 0
    ensures FirstFree(slots, 0) == k
  {
    var r := FirstFree(slots, 0);
    if k < r {
      assert false;
    }
  }
}
