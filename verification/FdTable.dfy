/** The file-descriptor calls over the mutable pool. */
module FdTable {
  import opened Options
  import opened Descriptors

  class Pool {
    const slots: array<Slot>
    var maxFd: int
    var errno: Option<Error>

    ghost function View(): Table
      reads this, slots
    {
      Table(slots[..], maxFd)
    }

    ghost predicate Valid(nullDev: Dev)
      reads this, slots
    {
      Inv(View(), nullDev)
    }

    constructor (size: nat, nullDev: Dev)
      requires 3 <= size
      ensures View() == Initial(size, nullDev) && Valid(nullDev) && fresh(slots) && errno == None
    {
      slots := new Slot[size](i => if i < 3 then Slot(Some(nullDev), ZERO) else FREE);
      maxFd, errno := -1, None;
      new;
      assert slots[..] == Initial(size, nullDev).slots;
      InitialInv(size, nullDev);
    }

    lemma FirstFreeOf(i: nat)
      requires i <= slots.Length && forall j :: 0 <= j < i ==> slots[j].dev != None
      requires i < slots.Length ==> slots[i].dev == None
      ensures FirstFree(slots[..]) == i
    {
      var s := slots[..];
      assert forall j :: 0 <= j < i ==> s[j].dev != None;
      assert i < |s| ==> s[i].dev == None;
    }

    /** `alt_get_fd` */
    method GetFd(dev: Dev) returns (rc: Outcome)
      modifies `maxFd, slots
      ensures rc == if FirstFree(old(slots[..])) < slots.Length then Ok(FirstFree(old(slots[..]))) else Failed(EMFILE)
      ensures View() == if rc.Ok? then Allocate(old(View()), dev) else old(View())
    {
      for i := 0 to slots.Length
        invariant forall j :: 0 <= j < i ==> slots[j].dev != None
        invariant View() == old(View())
      {
        if slots[i].dev == None {
          FirstFreeOf(i);
          slots[i] := slots[i].(dev := Some(dev));
          if i > maxFd {
            maxFd := i;
          }
          return Ok(i);
        }
      }
      FirstFreeOf(slots.Length);
      rc := Failed(EMFILE);
    }

    /** `alt_release_fd` */
    method ReleaseFd(fd: int)
      requires fd < slots.Length
      modifies slots
      ensures View() == Release(old(View()), fd)
    {
      if fd > 2 {
        slots[fd] := slots[fd].(flags := ZERO);
        slots[fd] := slots[fd].(dev := None);
      }
    }

    /** `alt_file_locked`: marks the descriptor as a device's, then looks for a holder of its lock.  The
        code compares the index with the mark as unsigned words, so the mark must not be -1 here. */
    method FileLocked(fd: nat) returns (locked: bool)
      requires fd < slots.Length && 0 <= maxFd < slots.Length
      modifies slots
      ensures slots[..] == old(slots[..])[fd := old(slots[fd]).(flags := old(slots[fd]).flags.(dev := true))]
      ensures locked <==> LockedByOther(View(), fd)
    {
      slots[fd] := slots[fd].(flags := slots[fd].flags.(dev := true));
      ghost var t := View();
      var i := 0;
      while i <= maxFd
        invariant 0 <= i && View() == t
        invariant forall j :: 0 <= j < i && j <= maxFd && j != fd && t.slots[j].dev == t.slots[fd].dev ==>
                    !IsExclusive(t.slots[j])
      {
        if slots[i].dev == slots[fd].dev && slots[i].flags.excl && i != fd {
          assert t.slots[i].dev == t.slots[fd].dev && IsExclusive(t.slots[i]);
          return true;
        }
        i := i + 1;
      }
      locked := false;
    }

    /** The part of `open` after the allocation of `fd`. */
    method OpenAllocated(fd: nat, dev: Dev, flags: Flags, driver: int) returns (rc: Outcome)
      requires fd < slots.Length && 0 <= maxFd < slots.Length
      modifies slots
      ensures (View(), rc) == Opened(old(View()), fd, dev, flags, driver)
    {
      slots[fd] := slots[fd].(flags := flags.WithoutOwn());
      var locked := false;
      if !dev.isFs {
        locked := FileLocked(fd);
      }
      assert slots[..] == old(slots[..])[fd := old(slots[..])[fd].(flags := OpenFlags(dev, flags))];
      rc := if locked then Failed(EACCES) else if driver < 0 then Failed(FromDriver(driver)) else Ok(fd);
      if rc.Failed? {
        ReleaseFd(fd);
      }
    }

    /** `open` */
    method AltOpen(found: Option<Dev>, flags: Flags, driver: int, ghost nullDev: Dev) returns (rc: Outcome)
      requires Valid(nullDev)
      modifies this, slots
      ensures Valid(nullDev) && (View(), rc) == Open(old(View()), found, flags, driver)
      ensures errno == if rc.Failed? then Some(rc.error) else old(errno)
    {
      OpenKeeps(View(), nullDev, found, flags, driver);
      rc := Failed(ENODEV);
      if found != None {
        rc := GetFd(found.value);
        if rc.Ok? {
          rc := OpenAllocated(rc.value, found.value, flags, driver);
        }
      }
      if rc.Failed? {
        errno := Some(rc.error);
      }
    }

    /** `close` */
    method AltClose(fd: int, driver: int, ghost nullDev: Dev) returns (rc: Outcome)
      requires Valid(nullDev) && Permitted(View(), CloseCall(fd, driver))
      modifies this, slots
      ensures Valid(nullDev) && (View(), rc) == Close(old(View()), fd, driver)
      ensures errno == if rc.Failed? then Some(rc.error) else old(errno)
    {
      CloseKeeps(View(), nullDev, fd);
      if fd >= 0 {
        ReleaseFd(fd);
        rc := if driver < 0 then Failed(FromDriver(driver)) else Ok(0);
      } else {
        rc := Failed(EBADFD);
      }
      if rc.Failed? {
        errno := Some(rc.error);
      }
    }

    /** `alt_fd_lock` */
    method FdLock(fd: nat) returns (rc: Outcome)
      requires fd < slots.Length && maxFd < slots.Length
      modifies slots
      ensures (View(), rc) == Lock(old(View()), fd)
    {
      ghost var t := View();
      var i := 0;
      while i < maxFd
        invariant 0 <= i && View() == t
        invariant forall j :: 0 <= j < i && j < maxFd && j != fd ==> t.slots[j].dev != t.slots[fd].dev
      {
        if i != fd && slots[i].dev == slots[fd].dev {
          assert t.slots[i].dev == t.slots[fd].dev;
          return Failed(EACCES);
        }
        i := i + 1;
      }
      assert !SharedBelowMark(t, fd);
      slots[fd] := slots[fd].(flags := slots[fd].flags.(excl := true));
      rc := Ok(0);
    }

    /** `alt_fd_unlock` */
    method FdUnlock(fd: nat) returns (rc: Outcome)
      requires fd < slots.Length
      modifies slots
      ensures View() == Unlock(old(View()), fd) && rc == Ok(0)
    {
      slots[fd] := slots[fd].(flags := slots[fd].flags.(excl := false));
      rc := Ok(0);
    }

    /** `ioctl` */
    method AltIoctl(fd: int, req: Request, answer: Option<int>, ghost nullDev: Dev) returns (rc: Outcome)
      requires Valid(nullDev) && Permitted(View(), IoctlCall(fd, req, answer))
      modifies this, slots
      ensures Valid(nullDev) && (View(), rc) == Ioctl(old(View()), fd, req, answer)
      ensures errno == if rc.Failed? then Some(rc.error) else old(errno)
    {
      IoctlKeeps(View(), nullDev, fd, req, answer);
      if fd < 0 {
        rc := Failed(EBADFD);
      } else if slots[fd].flags.dev && req == TIOCEXCL {
        rc := FdLock(fd);
      } else if slots[fd].flags.dev && req == TIOCNXCL {
        rc := FdUnlock(fd);
      } else if answer == None {
        rc := Failed(ENOTTY);
      } else {
        rc := if answer.value < 0 then Failed(FromDriver(answer.value)) else Ok(answer.value);
      }
      if rc.Failed? {
        errno := Some(rc.error);
      }
    }

    /** `fcntl` */
    method AltFcntl(fd: int, cmd: Command, ghost nullDev: Dev) returns (rc: Outcome)
      requires Valid(nullDev) && Permitted(View(), FcntlCall(fd, cmd))
      modifies this, slots
      ensures Valid(nullDev) && (View(), rc) == Fcntl(old(View()), fd, cmd)
      ensures errno == if rc.Failed? then Some(rc.error) else old(errno)
    {
      FcntlKeeps(View(), nullDev, fd, cmd);
      if fd < 0 {
        rc := Failed(EBADFD);
      } else {
        match cmd {
          case F_GETFL =>
            rc := OkFlags(slots[fd].flags.WithoutOwn());
          case F_SETFL(flags) =>
            slots[fd] := slots[fd].(flags := slots[fd].flags.(append := false, nonblock := false));
            slots[fd] := slots[fd].(flags := slots[fd].flags.(append := flags.append, nonblock := flags.nonblock));
            assert slots[..] ==
                old(slots[..])[fd := old(slots[..])[fd].(flags := old(slots[..])[fd].flags.Settable(flags))];
            rc := Ok(0);
          case OtherCommand =>
            rc := Failed(EINVAL);
        }
      }
      if rc.Failed? {
        errno := Some(rc.error);
      }
    }
  }
}
