/** The file descriptor table in place: alt_fd_list, alt_max_fd and the calls that change them,
    each proved against FdPool. */
module FdTable {
  import opened Common
  import opened FdPool

  class Table {
    const list: array<Slot>   // alt_fd_list
    var maxFd: int            // alt_max_fd
    var errno: int            // ALT_ERRNO

    ghost function Contents(): Pool
      reads this, list
    {
      Pool(list[..], maxFd)
    }

    ghost predicate Valid()
      reads this, list
    {
      Inv(Contents())
    }

    /** The table at startup, for ALT_MAX_FD descriptors. */
    constructor (n: nat, devNull: Dev)
      requires n >= 3 && devNull != 0
      ensures Valid() && Contents() == Init(n, devNull) && fresh(list)
    {
      list := new Slot[n](i => if i <= 2 then Slot(devNull, 0) else FREE);
      maxFd := -1;
      errno := 0;
      new;
      InitInv(n, devNull);
      assert list[..] == Init(n, devNull).slots;
    }

    /** alt_get_fd */
    method GetFd(dev: Dev) returns (rc: int)
      requires |list[..]| >= 3 && -1 <= maxFd < list.Length && dev != 0
      modifies this`maxFd, list
      ensures var i := FirstFree(old(list[..]), 0);
              if i == list.Length then rc == -EMFILE && Contents() == old(Contents())
              else rc == i && Contents() == Pool(old(list[..])[i := old(list[i]).(dev := dev)], Max(i, old(maxFd)))
    {
      hide Excl, IsDev, SameOpenFlags, Stripped, Marked, Locked, Unlocked, Reflagged;
      rc := -EMFILE;
      for i := 0 to list.Length
        invariant FirstFree(list[..], 0) == FirstFree(list[..], i)
        invariant list[..] == old(list[..]) && maxFd == old(maxFd)
      {
        if list[i].dev == 0 {
          list[i] := list[i].(dev := dev);
          if i > maxFd {
            maxFd := i;
          }
          return i;
        }
      }
    }

    /** alt_file_locked */
    method FileLocked(fd: nat) returns (rc: int)
      requires fd < list.Length && 0 <= maxFd < list.Length
      modifies list
      ensures var p := old(Contents());
              var p' := p.(slots := p.slots[fd := Marked(p.slots[fd])]);
              Contents() == p' && rc == if LockedByOther(p', fd) then -EACCES else 0
    {
      hide Excl, IsDev, SameOpenFlags, Stripped, Marked, Locked, Unlocked, Reflagged;
      list[fd] := Marked(list[fd]);
      ghost var p' := Contents();
      for i := 0 to maxFd + 1
        invariant Contents() == p'
        invariant forall k :: 0 <= k < i ==> !(k != fd && list[k].dev == list[fd].dev && Excl(list[k]))
      {
        if list[i].dev == list[fd].dev && Excl(list[i]) && i != fd {
          assert p'.slots[i].dev == p'.slots[fd].dev && Excl(p'.slots[i]);
          return -EACCES;
        }
      }
      return 0;
    }

    /** alt_release_fd */
    method ReleaseFd(fd: int)
      requires fd < list.Length
      modifies list
      ensures Contents() == Release(old(Contents()), fd)
    {
      if fd > 2 {
        list[fd] := Slot(0, 0);
      }
    }

    /** open(); `driver` stands for the driver's open function. */
    method OpenFile(name: Lookup, flags: bv32, driver: int) returns (rc: int)
      requires Valid() && (name.NoDevice? || name.dev != 0)
      modifies this, list
      ensures Valid()
      ensures var (p, r) := Open(old(Contents()), name, flags, driver);
              && Contents() == p && rc == (if r < 0 then -1 else r)
              && errno == if r < 0 then -r else old(errno)
    {
      hide Excl, IsDev, SameOpenFlags, Stripped, Marked, Locked, Unlocked, Reflagged, SlotOk, Contends;
      OpenKeepsInv(Contents(), name, flags, driver);
      var index := -1;
      var status := -ENODEV;
      if name != NoDevice {
        index := GetFd(name.dev);
        if index < 0 {
          status := index;
        } else {
          list[index] := Stripped(list[index].dev, flags);
          status := 0;
          if name.Device? {
            status := FileLocked(index);
          }
          ghost var p := old(Contents());
          assert Contents() == Pool(p.slots[index := Claimed(name.dev, flags, name.Device?)], Max(index, p.maxFd));
          if name.FileSystem? || status >= 0 {
            status := driver;
          }
        }
      }
      if status < 0 {
        ReleaseFd(index);
        errno := -status;
        return -1;
      }
      return index;
    }

    /** close(); `driver` stands for the driver's close function. */
    method CloseFile(fd: int, driver: int) returns (rc: int)
      requires Valid() && Legal(Contents(), OpClose(fd, driver))
      modifies this, list
      ensures Valid()
      ensures var (p, r) := Close(old(Contents()), fd, driver);
              Contents() == p && rc == (if r < 0 then -1 else 0) && errno == if r < 0 then -r else old(errno)
    {
      hide Excl, IsDev, SameOpenFlags, Stripped, Marked, Locked, Unlocked, Reflagged, SlotOk, Contends;
      ReleaseKeepsInv(Contents(), fd);
      if fd < 0 {
        errno := EBADFD;
        return -1;
      }
      ReleaseFd(fd);
      if driver < 0 {
        errno := -driver;
        return -1;
      }
      return 0;
    }

    /** alt_fd_lock */
    method FdLock(fd: nat) returns (rc: int)
      requires fd < list.Length && -1 <= maxFd < list.Length
      modifies list
      ensures var p := old(Contents());
              if Shared(p, fd) then rc == -EACCES && Contents() == p
              else rc == 0 && Contents() == p.(slots := p.slots[fd := Locked(p.slots[fd])])
    {
      hide Excl, IsDev, SameOpenFlags, Stripped, Marked, Locked, Unlocked, Reflagged;
      var i := 0;
      while i < maxFd
        invariant 0 <= i && Contents() == old(Contents())
        invariant forall k :: 0 <= k < i ==> !(k < maxFd && k != fd && list[k].dev == list[fd].dev)
      {
        if i != fd && list[i].dev == list[fd].dev {
          assert old(Contents()).slots[i].dev == old(Contents()).slots[fd].dev;
          return -EACCES;
        }
        i := i + 1;
      }
      list[fd] := Locked(list[fd]);
      return 0;
    }

    /** ioctl(); `driver` stands for the driver's ioctl function. */
    method IoctlFile(fd: int, req: Request, driver: Option<int>) returns (rc: int)
      requires Valid() && Legal(Contents(), OpIoctl(fd, req, driver))
      modifies this, list
      ensures Valid()
      ensures var (p, r) := Ioctl(old(Contents()), fd, req, driver);
              Contents() == p && rc == r && errno == if r < 0 then -r else old(errno)
    {
      hide Excl, IsDev, SameOpenFlags, Stripped, Marked, Locked, Unlocked, Reflagged, SlotOk, Contends;
      IoctlKeepsInv(Contents(), fd, req, driver);
      if fd < 0 {
        rc := -EBADFD;
      } else if IsDev(list[fd]) && req == TIOCEXCL {
        rc := FdLock(fd);
      } else if IsDev(list[fd]) && req == TIOCNXCL {
        // alt_fd_unlock
        list[fd] := Unlocked(list[fd]);
        rc := 0;
      } else if driver.Some? {
        rc := driver.value;
      } else {
        rc := -ENOTTY;
      }
      if rc < 0 {
        errno := -rc;
      }
    }

    /** fcntl(fd, F_SETFL, flags) */
    method SetFlags(fd: int, flags: bv32) returns (rc: int)
      requires Valid() && Legal(Contents(), OpFcntl(fd, flags))
      modifies this, list
      ensures Valid()
      ensures var (p, r) := Fcntl(old(Contents()), fd, flags);
              Contents() == p && rc == (if r < 0 then -1 else 0) && errno == if r < 0 then -r else old(errno)
    {
      hide Excl, IsDev, SameOpenFlags, Stripped, Marked, Locked, Unlocked, Reflagged, SlotOk, Contends;
      FcntlKeepsInv(Contents(), fd, flags);
      if fd < 0 {
        errno := EBADFD;
        return -1;
      }
      list[fd] := Reflagged(list[fd], flags);
      return 0;
    }

    /** fcntl(fd, F_GETFL) */
    method ReadFlags(fd: int) returns (rc: int, flags: bv32)
      requires Valid() && Legal(Contents(), OpFcntl(fd, 0))
      modifies this`errno
      ensures match GetFlags(Contents(), fd)
              case None => rc == -1 && errno == 77
              case Some(f) => rc == 0 && flags == f && errno == old(errno)
    {
      if fd < 0 {
        errno := EBADFD;
        return -1, 0;
      }
      return 0, list[fd].flags & !ALT_FD_FLAGS_MASK;
    }

    /** alt_open_fd */
    method OpenFd(fd: nat, name: Lookup, flags: bv32, driver: int)
      requires Valid() && Legal(Contents(), OpRedirect(fd, name, flags, driver))
      modifies this, list
      ensures Valid() && Contents() == Redirect(old(Contents()), fd, name, flags, driver).0
    {
      hide Excl, IsDev, SameOpenFlags, Stripped, Marked, Locked, Unlocked, Reflagged, SlotOk, Contends;
      RedirectKeepsInv(Contents(), fd, name, flags, driver);
      var index := OpenFile(name, flags, driver);
      if index >= 0 {
        list[fd] := list[index];
        ReleaseFd(index);
      }
    }

    /** alt_io_redirect: standard output, input and error in turn. */
    method IoRedirect(out: Lookup, input: Lookup, err: Lookup, outDriver: int, inDriver: int, errDriver: int)
      requires Valid()
      requires forall name :: name == out || name == input || name == err ==> name.NoDevice? || name.dev != 0
      modifies this, list
      ensures Valid()
      ensures var p1 := Redirect(old(Contents()), 1, out, O_WRONLY, outDriver).0;
              Inv(p1) &&
              var p2 := Redirect(p1, 0, input, O_RDONLY, inDriver).0;
              Inv(p2) && Contents() == Redirect(p2, 2, err, O_WRONLY, errDriver).0
    {
      OpenFd(1, out, O_WRONLY, outDriver);
      OpenFd(0, input, O_RDONLY, inDriver);
      OpenFd(2, err, O_WRONLY, errDriver);
    }
  }

  const O_RDONLY: bv32 := 0
  const O_WRONLY: bv32 := 1
}
