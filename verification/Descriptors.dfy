/**
  The file-descriptor pool as a value: which device each slot refers to, its flag word and the
  high-water mark; and what every call does to it.  Device lookups and driver callbacks appear as
  arbitrary results.
*/
module Descriptors {
  import opened Options

  /** A registered device or file system. */
  datatype Dev = Dev(id: int, isFs: bool)

  /** The 32-bit flag word of a descriptor: ALT_FD_EXCL, ALT_FD_DEV, O_APPEND, O_NONBLOCK, and the rest. */
  datatype Flags = Flags(excl: bool, dev: bool, append: bool, nonblock: bool, others: bv28) {

    /** `flags & ~ALT_FD_FLAGS_MASK` */
    function WithoutOwn(): Flags {
      this.(excl := false, dev := false)
    }

    /** `(this & ~ALT_FCNTL_FLAGS_MASK) | (flags & ALT_FCNTL_FLAGS_MASK)` */
    function Settable(flags: Flags): Flags {
      this.(append := flags.append, nonblock := flags.nonblock)
    }
  }

  const ZERO: Flags := Flags(false, false, false, false, 0)

  datatype Slot = Slot(dev: Option<Dev>, flags: Flags)

  const FREE: Slot := Slot(None, ZERO)

  datatype Error = ENODEV | EMFILE | EACCES | EBADFD | EINVAL | ENOTTY | FromDriver(code: int)

  /** A call's return value: nonnegative, or an error. */
  datatype Outcome = Ok(value: int) | OkFlags(flags: Flags) | Failed(error: Error)

  datatype Table = Table(slots: seq<Slot>, maxFd: int)

  predicate IsExclusive(s: Slot) {
    s.flags.excl
  }

  predicate IsDevice(s: Slot) {
    s.flags.dev
  }

  /** The pool at reset: the three standard descriptors on the null device, all others free. */
  function Initial(size: nat, nullDev: Dev): Table
    requires 3 <= size
  {
    Table(seq(size, i => if i < 3 then Slot(Some(nullDev), ZERO) else FREE), -1)
  }

  // ----- the calls -----

  /** The least free index, or the size of the pool. */
  function FirstFree(slots: seq<Slot>): (i: nat)
    ensures i <= |slots|
    ensures i < |slots| ==> slots[i].dev == None
    ensures forall j :: 0 <= j < i ==> slots[j].dev != None
  {
    if slots == [] || slots[0].dev == None then 0 else 1 + FirstFree(slots[1..])
  }

  /** `alt_get_fd`, when a slot is free. */
  function Allocate(t: Table, dev: Dev): Table
    requires FirstFree(t.slots) < |t.slots|
  {
    var i := FirstFree(t.slots);
    Table(t.slots[i := t.slots[i].(dev := Some(dev))], if i > t.maxFd then i else t.maxFd)
  }

  /** `alt_release_fd`. */
  function Release(t: Table, fd: int): Table
    requires fd < |t.slots|
  {
    if fd > 2 then t.(slots := t.slots[fd := FREE]) else t
  }

  /** Some slot up to the high-water mark, other than `fd`, holds the exclusive lock on its device. */
  ghost predicate LockedByOther(t: Table, fd: nat)
    requires fd < |t.slots|
  {
    exists i :: 0 <= i <= t.maxFd && i < |t.slots| && i != fd
                && t.slots[i].dev == t.slots[fd].dev && IsExclusive(t.slots[i])
  }

  /** Some slot below the high-water mark, other than `fd`, refers to its device. */
  ghost predicate SharedBelowMark(t: Table, fd: nat)
    requires fd < |t.slots|
  {
    exists i :: 0 <= i < t.maxFd && i < |t.slots| && i != fd && t.slots[i].dev == t.slots[fd].dev
  }

  /** `open` once the slot `fd` has been allocated for `dev`: the flags, the lock check and the driver. */
  ghost function Opened(t: Table, fd: nat, dev: Dev, flags: Flags, driver: int): (Table, Outcome)
    requires fd < |t.slots|
  {
    var own := flags.WithoutOwn();
    var u := t.(slots := t.slots[fd := t.slots[fd].(flags := if dev.isFs then own else own.(dev := true))]);
    if !dev.isFs && LockedByOther(u, fd) then (Release(u, fd), Failed(EACCES))
    else if driver < 0 then (Release(u, fd), Failed(FromDriver(driver)))
    else (u, Ok(fd))
  }

  /** `open`: `found` is the device or file system of that name; `driver` is what its `open` callback
      returns, 0 if it has none. */
  ghost function Open(t: Table, found: Option<Dev>, flags: Flags, driver: int): (Table, Outcome) {
    if found == None then (t, Failed(ENODEV))
    else if FirstFree(t.slots) == |t.slots| then (t, Failed(EMFILE))
    else Opened(Allocate(t, found.value), FirstFree(t.slots), found.value, flags, driver)
  }

  /** `close` of a descriptor that is negative or in use. */
  function Close(t: Table, fd: int, driver: int): (Table, Outcome)
    requires fd < |t.slots|
  {
    if fd < 0 then (t, Failed(EBADFD))
    else (Release(t, fd), if driver < 0 then Failed(FromDriver(driver)) else Ok(0))
  }

  datatype Request = TIOCEXCL | TIOCNXCL | OtherRequest

  /** `alt_fd_lock` and `alt_fd_unlock`. */
  ghost function Lock(t: Table, fd: nat): (Table, Outcome)
    requires fd < |t.slots|
  {
    if SharedBelowMark(t, fd) then (t, Failed(EACCES))
    else (t.(slots := t.slots[fd := t.slots[fd].(flags := t.slots[fd].flags.(excl := true))]), Ok(0))
  }

  function Unlock(t: Table, fd: nat): Table
    requires fd < |t.slots|
  {
    t.(slots := t.slots[fd := t.slots[fd].(flags := t.slots[fd].flags.(excl := false))])
  }

  /** `ioctl`; `driver` is the driver's answer, if it has an `ioctl` callback. */
  ghost function Ioctl(t: Table, fd: int, req: Request, driver: Option<int>): (Table, Outcome)
    requires fd < |t.slots|
  {
    if fd < 0 then (t, Failed(EBADFD))
    else if IsDevice(t.slots[fd]) && req == TIOCEXCL then Lock(t, fd)
    else if IsDevice(t.slots[fd]) && req == TIOCNXCL then (Unlock(t, fd), Ok(0))
    else if driver == None then (t, Failed(ENOTTY))
    else if driver.value < 0 then (t, Failed(FromDriver(driver.value)))
    else (t, Ok(driver.value))
  }

  datatype Command = F_GETFL | F_SETFL(flags: Flags) | OtherCommand

  /** `fcntl`. */
  function Fcntl(t: Table, fd: int, cmd: Command): (Table, Outcome)
    requires fd < |t.slots|
  {
    if fd < 0 then (t, Failed(EBADFD))
    else
      match cmd
      case F_GETFL => (t, OkFlags(t.slots[fd].flags.WithoutOwn()))
      case F_SETFL(flags) =>
        (t.(slots := t.slots[fd := t.slots[fd].(flags := t.slots[fd].flags.Settable(flags))]), Ok(0))
      case OtherCommand => (t, Failed(EINVAL))
  }

  // ----- runs of calls -----

  datatype Call =
    | OpenCall(found: Option<Dev>, flags: Flags, driver: int)
    | CloseCall(fd: int, driver: int)
    | IoctlCall(fd: int, req: Request, answer: Option<int>)
    | FcntlCall(fd: int, cmd: Command)

  /** What the code takes for granted: the descriptor is negative or in the pool, and `close` and `ioctl`,
      which look up the device's callbacks, are given one that is open. */
  predicate Permitted(t: Table, c: Call) {
    match c
    case OpenCall(_, _, _) => true
    case CloseCall(fd, _) => fd < |t.slots| && (0 <= fd ==> t.slots[fd].dev != None)
    case IoctlCall(fd, _, _) => fd < |t.slots| && (0 <= fd ==> t.slots[fd].dev != None)
    case FcntlCall(fd, _) => fd < |t.slots|
  }

  ghost function Step(t: Table, c: Call): (Table, Outcome)
    requires Permitted(t, c)
  {
    match c
    case OpenCall(found, flags, driver) => Open(t, found, flags, driver)
    case CloseCall(fd, driver) => Close(t, fd, driver)
    case IoctlCall(fd, req, answer) => Ioctl(t, fd, req, answer)
    case FcntlCall(fd, cmd) => Fcntl(t, fd, cmd)
  }

  ghost predicate AllPermitted(t: Table, calls: seq<Call>)
    decreases |calls|
  {
    calls == [] || (Permitted(t, calls[0]) && AllPermitted(Step(t, calls[0]).0, calls[1..]))
  }

  ghost function Run(t: Table, calls: seq<Call>): Table
    requires AllPermitted(t, calls)
    decreases |calls|
  {
    if calls == [] then t else Run(Step(t, calls[0]).0, calls[1..])
  }

  // ----- what every call keeps -----

  ghost predicate SlotInv(s: Slot) {
    && (IsDevice(s) ==> s.dev != None && !s.dev.value.isFs)
    && (IsExclusive(s) ==> IsDevice(s))
  }

  ghost predicate Inv(t: Table, nullDev: Dev) {
    && 3 <= |t.slots| && -1 <= t.maxFd < |t.slots|
    && (forall i :: 0 <= i < 3 ==> t.slots[i].dev == Some(nullDev) && !IsDevice(t.slots[i]) && !IsExclusive(t.slots[i]))
    && (forall i :: 0 <= i < |t.slots| ==> SlotInv(t.slots[i]))
    && (forall i :: 3 <= i < |t.slots| && t.slots[i].dev != None ==> i <= t.maxFd)
  }

  /** Changing one slot above the standard ones keeps the invariant. */
  lemma OneSlotKeeps(t: Table, u: Table, fd: nat, nullDev: Dev)
    requires Inv(t, nullDev) && fd < |t.slots| == |u.slots| && u.slots == t.slots[fd := u.slots[fd]]
    requires t.maxFd <= u.maxFd < |t.slots| && (u.slots[fd].dev != None && fd >= 3 ==> fd <= u.maxFd)
    requires SlotInv(u.slots[fd])
    requires fd < 3 ==> u.slots[fd].dev == Some(nullDev) && !IsDevice(u.slots[fd])
    ensures Inv(u, nullDev)
  {
  }

  lemma InitialInv(size: nat, nullDev: Dev)
    requires 3 <= size
    ensures Inv(Initial(size, nullDev), nullDev)
  {
  }

  /** The flag word `open` gives a descriptor. */
  function OpenFlags(dev: Dev, flags: Flags): Flags {
    flags.(excl := false, dev := !dev.isFs)
  }

  /** The pool after a successful open: one more descriptor, at the least free index. */
  ghost predicate IsOpenedAt(t: Table, u: Table, fd: int, dev: Dev, flags: Flags) {
    && 0 <= fd == FirstFree(t.slots) < |t.slots|
    && u.slots == t.slots[fd := Slot(Some(dev), OpenFlags(dev, flags))]
    && u.maxFd == if fd > t.maxFd then fd else t.maxFd
  }

  /** Free slots carry zero flags. */
  ghost predicate FreeSlotsAreClean(t: Table) {
    forall i :: 0 <= i < |t.slots| && t.slots[i].dev == None ==> t.slots[i].flags == ZERO
  }

  /** Once its slot is allocated, an open fills it or frees it again. */
  lemma OpenedOrUndone(t: Table, dev: Dev, flags: Flags, driver: int)
    requires 3 <= FirstFree(t.slots) < |t.slots|
    ensures var i := FirstFree(t.slots);
            var (u, r) := Opened(Allocate(t, dev), i, dev, flags, driver);
            && (r.Ok? || r.Failed?)
            && (r.Ok? ==> r.value == i && u.slots == t.slots[i := Slot(Some(dev), OpenFlags(dev, flags))])
            && (r.Failed? ==> u.slots == t.slots[i := FREE])
            && u.maxFd == if i > t.maxFd then i else t.maxFd
  {
  }

  /** An open takes the least free index or fails; when it fails, at whatever stage, every device is as
      it was, and every flag word too if the free slots' were zero. */
  lemma OpenIsAllOrNothing(t: Table, found: Option<Dev>, flags: Flags, driver: int)
    requires forall i :: 0 <= i < 3 ==> i < |t.slots| && t.slots[i].dev != None
    ensures var (u, r) := Open(t, found, flags, driver);
            && (r.Ok? ==> found != None && IsOpenedAt(t, u, r.value, found.value, flags) && 3 <= r.value)
            && (r.Failed? ==>
                  && |u.slots| == |t.slots|
                  && (forall i :: 0 <= i < |t.slots| ==> u.slots[i].dev == t.slots[i].dev)
                  && (u.slots == t.slots ||
                      (FirstFree(t.slots) < |t.slots| && u.slots == t.slots[FirstFree(t.slots) := FREE]))
                  && (FreeSlotsAreClean(t) ==> u.slots == t.slots)
                  && t.maxFd <= u.maxFd && (u.maxFd == t.maxFd || u.maxFd == FirstFree(t.slots) < |t.slots|))
  {
    var i := FirstFree(t.slots);
    if found != None && i < |t.slots| {
      OpenedOrUndone(t, found.value, flags, driver);
      assert FreeSlotsAreClean(t) ==> t.slots[i] == FREE;
    }
  }

  lemma OpenKeeps(t: Table, nullDev: Dev, found: Option<Dev>, flags: Flags, driver: int)
    requires Inv(t, nullDev)
    ensures Inv(Open(t, found, flags, driver).0, nullDev)
  {
    OpenIsAllOrNothing(t, found, flags, driver);
    var (u, r) := Open(t, found, flags, driver);
    var i := FirstFree(t.slots);
    if found != None && i < |t.slots| && u != t {
      assert u.slots == t.slots[i := u.slots[i]];
      OneSlotKeeps(t, u, i, nullDev);
    }
  }

  lemma CloseKeeps(t: Table, nullDev: Dev, fd: int)
    requires Inv(t, nullDev) && fd < |t.slots|
    ensures Inv(Release(t, fd), nullDev)
  {
    if fd > 2 {
      OneSlotKeeps(t, Release(t, fd), fd, nullDev);
    }
  }

  lemma DescriptorOfDevice(t: Table, nullDev: Dev, fd: nat)
    requires Inv(t, nullDev) && fd < |t.slots| && IsDevice(t.slots[fd])
    ensures 3 <= fd <= t.maxFd && t.slots[fd].dev != None
  {
  }

  lemma IoctlKeeps(t: Table, nullDev: Dev, fd: int, req: Request, answer: Option<int>)
    requires Inv(t, nullDev) && fd < |t.slots|
    ensures Inv(Ioctl(t, fd, req, answer).0, nullDev)
  {
    if fd >= 0 && IsDevice(t.slots[fd]) && req != OtherRequest {
      DescriptorOfDevice(t, nullDev, fd);
      OneSlotKeeps(t, Ioctl(t, fd, req, answer).0, fd, nullDev);
    }
  }

  lemma FcntlKeeps(t: Table, nullDev: Dev, fd: int, cmd: Command)
    requires Inv(t, nullDev) && fd < |t.slots|
    ensures Inv(Fcntl(t, fd, cmd).0, nullDev)
  {
    if fd >= 0 && cmd.F_SETFL? {
      OneSlotKeeps(t, Fcntl(t, fd, cmd).0, fd, nullDev);
    }
  }

  lemma StepKeeps(t: Table, nullDev: Dev, c: Call)
    requires Inv(t, nullDev) && Permitted(t, c)
    ensures Inv(Step(t, c).0, nullDev)
  {
    match c
    case OpenCall(found, flags, driver) => OpenKeeps(t, nullDev, found, flags, driver);
    case CloseCall(fd, _) => CloseKeeps(t, nullDev, fd);
    case IoctlCall(fd, req, answer) => IoctlKeeps(t, nullDev, fd, req, answer);
    case FcntlCall(fd, cmd) => FcntlKeeps(t, nullDev, fd, cmd);
  }

  lemma {:induction false} RunKeeps(t: Table, nullDev: Dev, calls: seq<Call>)
    requires Inv(t, nullDev) && AllPermitted(t, calls)
    ensures Inv(Run(t, calls), nullDev)
    decreases |calls|
  {
    if calls != [] {
      StepKeeps(t, nullDev, calls[0]);
      RunKeeps(Step(t, calls[0]).0, nullDev, calls[1..]);
    }
  }

  /** Over every run from reset: the standard descriptors are never freed or redirected, no descriptor
      above them lies beyond the high-water mark, and only devices carry the lock. */
  lemma EveryRunKeepsThePool(size: nat, nullDev: Dev, calls: seq<Call>)
    requires 3 <= size && AllPermitted(Initial(size, nullDev), calls)
    ensures var t := Run(Initial(size, nullDev), calls);
            && Inv(t, nullDev)
            && (t.maxFd != -1 ==> 3 <= t.maxFd) && |t.slots| == size
  {
    InitialInv(size, nullDev);
    RunKeeps(Initial(size, nullDev), nullDev, calls);
    MarkIsUnsetOrAboveStandard(Initial(size, nullDev), nullDev, calls);
  }

  lemma {:induction false} MarkIsUnsetOrAboveStandard(t: Table, nullDev: Dev, calls: seq<Call>)
    requires Inv(t, nullDev) && AllPermitted(t, calls) && (t.maxFd == -1 || 3 <= t.maxFd)
    ensures var u := Run(t, calls); (u.maxFd == -1 || 3 <= u.maxFd) && |u.slots| == |t.slots|
    decreases |calls|
  {
    if calls != [] {
      StepKeeps(t, nullDev, calls[0]);
      if calls[0].OpenCall? {
        OpenIsAllOrNothing(t, calls[0].found, calls[0].flags, calls[0].driver);
      }
      MarkIsUnsetOrAboveStandard(Step(t, calls[0]).0, nullDev, calls[1..]);
    }
  }

  /** The call sets flags on a descriptor that is not open. */
  predicate Litters(t: Table, c: Call)
    requires Permitted(t, c)
  {
    && c.FcntlCall? && c.cmd.F_SETFL? && c.fd >= 0
    && t.slots[c.fd].dev == None && (c.cmd.flags.append || c.cmd.flags.nonblock)
  }

  /** The word left in a free slot stays zero unless `fcntl` sets flags on a descriptor that is not open. */
  lemma StepStaysCleanIff(t: Table, nullDev: Dev, c: Call)
    requires Inv(t, nullDev) && Permitted(t, c) && FreeSlotsAreClean(t)
    ensures FreeSlotsAreClean(Step(t, c).0) <==> !Litters(t, c)
  {
    match c
    case OpenCall(found, flags, driver) =>
      OpenIsAllOrNothing(t, found, flags, driver);
    case CloseCall(fd, driver) =>
    case IoctlCall(fd, req, answer) =>
      if fd >= 0 && IsDevice(t.slots[fd]) {
        DescriptorOfDevice(t, nullDev, fd);
      }
    case FcntlCall(fd, cmd) =>
      if fd >= 0 && cmd.F_SETFL? {
        var u := Step(t, c).0;
        assert u.slots[fd].flags == t.slots[fd].flags.Settable(cmd.flags);
      }
  }

  /** The pool after the first `n` calls of a run. */
  ghost function After(t: Table, calls: seq<Call>, n: nat): Table
    requires AllPermitted(t, calls) && n <= |calls|
    decreases n
  {
    if n == 0 then t else After(Step(t, calls[0]).0, calls[1..], n - 1)
  }

  lemma {:induction false} AfterOneMore(t: Table, calls: seq<Call>, n: nat)
    requires AllPermitted(t, calls) && n < |calls|
    ensures Permitted(After(t, calls, n), calls[n])
    ensures After(t, calls, n + 1) == Step(After(t, calls, n), calls[n]).0
    decreases n
  {
    var u := Step(t, calls[0]).0;
    if n == 0 {
      assert After(u, calls[1..], 0) == u;
    } else {
      AfterOneMore(u, calls[1..], n - 1);
    }
  }

  lemma {:induction false} AfterAllIsRun(t: Table, calls: seq<Call>)
    requires AllPermitted(t, calls)
    ensures After(t, calls, |calls|) == Run(t, calls)
    decreases |calls|
  {
    if calls != [] {
      AfterAllIsRun(Step(t, calls[0]).0, calls[1..]);
    }
  }

  lemma {:induction false} AfterKeeps(t: Table, nullDev: Dev, calls: seq<Call>, n: nat)
    requires Inv(t, nullDev) && AllPermitted(t, calls) && n <= |calls|
    ensures Inv(After(t, calls, n), nullDev)
    decreases n
  {
    if n > 0 {
      StepKeeps(t, nullDev, calls[0]);
      AfterKeeps(Step(t, calls[0]).0, nullDev, calls[1..], n - 1);
    }
  }

  /** One of the first `n` calls of the run sets flags on a descriptor that is not open at that point. */
  ghost predicate HasLittered(t: Table, calls: seq<Call>, n: nat)
    requires AllPermitted(t, calls) && n <= |calls|
  {
    exists i: nat :: i < n && Permitted(After(t, calls, i), calls[i]) && Litters(After(t, calls, i), calls[i])
  }

  /** Free slots are clean all along the first `n` calls of the run. */
  ghost predicate CleanAlong(t: Table, calls: seq<Call>, n: nat)
    requires AllPermitted(t, calls) && n <= |calls|
  {
    forall i: nat :: i <= n ==> FreeSlotsAreClean(After(t, calls, i))
  }

  lemma {:induction false} CleanAlongIff(t: Table, nullDev: Dev, calls: seq<Call>, n: nat)
    requires Inv(t, nullDev) && FreeSlotsAreClean(t) && AllPermitted(t, calls) && n <= |calls|
    ensures CleanAlong(t, calls, n) <==> !HasLittered(t, calls, n)
  {
    if n > 0 {
      CleanAlongIff(t, nullDev, calls, n - 1);
      AfterOneMore(t, calls, n - 1);
      AfterKeeps(t, nullDev, calls, n - 1);
      if CleanAlong(t, calls, n - 1) {
        StepStaysCleanIff(After(t, calls, n - 1), nullDev, calls[n - 1]);
      }
    }
  }

  /** Over every run from reset, free slots keep zero flags at every point of the run if and only if no call
      of the run sets flags on a descriptor that is not open. */
  lemma FreeSlotsStayCleanIff(size: nat, nullDev: Dev, calls: seq<Call>)
    requires 3 <= size && AllPermitted(Initial(size, nullDev), calls)
    ensures CleanAlong(Initial(size, nullDev), calls, |calls|) <==> !HasLittered(Initial(size, nullDev), calls, |calls|)
    ensures !HasLittered(Initial(size, nullDev), calls, |calls|) ==>
              FreeSlotsAreClean(Run(Initial(size, nullDev), calls))
  {
    InitialInv(size, nullDev);
    CleanAlongIff(Initial(size, nullDev), nullDev, calls, |calls|);
    AfterAllIsRun(Initial(size, nullDev), calls);
  }

  /** One call at reset is enough. */
  lemma FcntlLittersAtReset(nullDev: Dev)
    ensures var t, call := Initial(8, nullDev), FcntlCall(3, F_SETFL(ZERO.(append := true)));
            && AllPermitted(t, [call])
            && Run(t, [call]).slots == t.slots[3 := Slot(None, ZERO.(append := true))]
  {
    var t, call := Initial(8, nullDev), FcntlCall(3, F_SETFL(ZERO.(append := true)));
    assert t.slots[3] == FREE;
    var u := Step(t, call).0;
    assert AllPermitted(u, []) && Run(u, []) == u;
    RunOne(t, call, []);
    assert [call] + [] == [call];
  }

  // ----- exclusive locks -----

  /** `h` holds the lock on its device and is the only descriptor that refers to it. */
  ghost predicate SoleHolder(t: Table, h: nat) {
    && h < |t.slots| && IsExclusive(t.slots[h]) && t.slots[h].dev != None
    && forall j :: 0 <= j < |t.slots| && j != h ==> t.slots[j].dev != t.slots[h].dev
  }

  /** The calls by which the holder gives the lock up. */
  predicate GivesUp(c: Call, h: nat) {
    (c.CloseCall? && c.fd == h) || (c.IoctlCall? && c.fd == h && c.req == TIOCNXCL)
  }

  /** While a device has a sole holder, opening it fails, and not for want of a slot only. */
  lemma OpenOfLockedDeviceFails(t: Table, nullDev: Dev, h: nat, flags: Flags, driver: int)
    requires Inv(t, nullDev) && SoleHolder(t, h)
    ensures Open(t, t.slots[h].dev, flags, driver).1 ==
            Failed(if FirstFree(t.slots) == |t.slots| then EMFILE else EACCES)
  {
    DescriptorOfDevice(t, nullDev, h);
    var i := FirstFree(t.slots);
    if i < |t.slots| {
      var dev := t.slots[h].dev.value;
      var a := Allocate(t, dev);
      var u := a.(slots := a.slots[i := a.slots[i].(flags := flags.WithoutOwn().(dev := true))]);
      assert u.slots[h] == t.slots[h] && u.slots[i].dev == u.slots[h].dev;
      assert LockedByOther(u, i);
    }
  }

  lemma SoleHolderKept(t: Table, nullDev: Dev, h: nat, c: Call)
    requires Inv(t, nullDev) && SoleHolder(t, h) && Permitted(t, c) && !GivesUp(c, h)
    ensures SoleHolder(Step(t, c).0, h) && Step(t, c).0.slots[h].dev == t.slots[h].dev
  {
    match c
    case OpenCall(found, flags, driver) =>
      OpenIsAllOrNothing(t, found, flags, driver);
      if found == t.slots[h].dev {
        OpenOfLockedDeviceFails(t, nullDev, h, flags, driver);
      }
    case CloseCall(fd, driver) =>
    case IoctlCall(fd, req, answer) =>
      if fd >= 0 && IsDevice(t.slots[fd]) {
        DescriptorOfDevice(t, nullDev, fd);
      }
    case FcntlCall(fd, cmd) =>
  }

  /** Exclusive locks stay exclusive: no run of calls in which the holder does not give the lock up
      creates a second descriptor on its device, or takes the lock from it. */
  lemma {:induction false} LockStaysExclusive(t: Table, nullDev: Dev, h: nat, calls: seq<Call>)
    requires Inv(t, nullDev) && SoleHolder(t, h) && AllPermitted(t, calls)
    requires forall i :: 0 <= i < |calls| ==> !GivesUp(calls[i], h)
    ensures SoleHolder(Run(t, calls), h) && Run(t, calls).slots[h].dev == t.slots[h].dev
    decreases |calls|
  {
    if calls != [] {
      SoleHolderKept(t, nullDev, h, calls[0]);
      StepKeeps(t, nullDev, calls[0]);
      LockStaysExclusive(Step(t, calls[0]).0, nullDev, h, calls[1..]);
    }
  }

  /** No two descriptors on one device both hold its lock. */
  ghost predicate OneHolder(t: Table) {
    forall i, j :: 0 <= i < j < |t.slots| && t.slots[i].dev == t.slots[j].dev ==>
      !(IsExclusive(t.slots[i]) && IsExclusive(t.slots[j]))
  }

  /** The slot at the high-water mark, which the scan of the lock step omits, holds a lock only alone. */
  ghost predicate MarkHoldsAlone(t: Table) {
    0 <= t.maxFd < |t.slots| && IsExclusive(t.slots[t.maxFd]) ==> SoleHolder(t, t.maxFd)
  }

  ghost predicate LockInv(t: Table, nullDev: Dev) {
    Inv(t, nullDev) && OneHolder(t) && MarkHoldsAlone(t)
  }

  /** A slot without the lock takes part in no conflict, whatever device it refers to. */
  lemma UnlockedSlotKeepsOneHolder(t: Table, u: Table, fd: nat)
    requires OneHolder(t) && fd < |t.slots| == |u.slots| && u.slots == t.slots[fd := u.slots[fd]]
    requires !IsExclusive(u.slots[fd]) || (IsExclusive(t.slots[fd]) && u.slots[fd].dev == t.slots[fd].dev)
    ensures OneHolder(u)
  {
  }

  lemma OpenKeepsOneHolder(t: Table, nullDev: Dev, found: Option<Dev>, flags: Flags, driver: int)
    requires LockInv(t, nullDev)
    ensures OneHolder(Open(t, found, flags, driver).0)
  {
    OpenIsAllOrNothing(t, found, flags, driver);
    var u, i := Open(t, found, flags, driver).0, FirstFree(t.slots);
    if u.slots != t.slots {
      assert u.slots == t.slots[i := u.slots[i]] && !IsExclusive(u.slots[i]);
      UnlockedSlotKeepsOneHolder(t, u, i);
    }
  }

  lemma OpenKeepsMark(t: Table, nullDev: Dev, found: Option<Dev>, flags: Flags, driver: int)
    requires LockInv(t, nullDev)
    ensures MarkHoldsAlone(Open(t, found, flags, driver).0)
  {
    OpenIsAllOrNothing(t, found, flags, driver);
    var u := Open(t, found, flags, driver).0;
    if 0 <= u.maxFd < |u.slots| && IsExclusive(u.slots[u.maxFd]) {
      MarkKept(t, nullDev, u, FirstFree(t.slots));
      SoleHolderKept(t, nullDev, t.maxFd, OpenCall(found, flags, driver));
    }
  }

  /** A mark that holds a lock after an open held it before. */
  lemma MarkKept(t: Table, nullDev: Dev, u: Table, i: nat)
    requires Inv(t, nullDev) && MarkHoldsAlone(t) && |u.slots| == |t.slots| && i == FirstFree(t.slots)
    requires u.maxFd == t.maxFd || u.maxFd == i
    requires u.slots == t.slots || (i < |t.slots| && u.slots == t.slots[i := u.slots[i]] && !IsExclusive(u.slots[i]))
    requires 0 <= u.maxFd < |u.slots| && IsExclusive(u.slots[u.maxFd])
    ensures u.maxFd == t.maxFd && SoleHolder(t, t.maxFd)
  {
  }

  /** A granted lock: any other holder on the device would sit at the mark, and so be alone on it. */
  lemma LockKeepsLocks(t: Table, nullDev: Dev, fd: nat)
    requires LockInv(t, nullDev) && fd < |t.slots| && IsDevice(t.slots[fd])
    ensures OneHolder(Lock(t, fd).0) && MarkHoldsAlone(Lock(t, fd).0)
  {
    DescriptorOfDevice(t, nullDev, fd);
    if !SharedBelowMark(t, fd) {
      var u := Lock(t, fd).0;
      forall j | 0 <= j < |t.slots| && j != fd && t.slots[j].dev == t.slots[fd].dev
        ensures j == t.maxFd && !IsExclusive(t.slots[j])
      {
        OtherIsAtMark(t, nullDev, fd, j);
      }
      assert forall j :: 0 <= j < |t.slots| && j != fd ==> u.slots[j] == t.slots[j];
    }
  }

  lemma OtherIsAtMark(t: Table, nullDev: Dev, fd: nat, j: nat)
    requires LockInv(t, nullDev) && fd < |t.slots| && IsDevice(t.slots[fd]) && !SharedBelowMark(t, fd)
    requires j < |t.slots| && j != fd && t.slots[j].dev == t.slots[fd].dev
    ensures j == t.maxFd && !IsExclusive(t.slots[j])
  {
    DescriptorOfDevice(t, nullDev, fd);
  }

  lemma StepKeepsLocks(t: Table, nullDev: Dev, c: Call)
    requires LockInv(t, nullDev) && Permitted(t, c)
    ensures LockInv(Step(t, c).0, nullDev)
  {
    StepKeeps(t, nullDev, c);
    match c
    case OpenCall(found, flags, driver) =>
      OpenKeepsOneHolder(t, nullDev, found, flags, driver);
      OpenKeepsMark(t, nullDev, found, flags, driver);
    case CloseCall(fd, driver) =>
    case IoctlCall(fd, req, answer) =>
      if fd >= 0 && IsDevice(t.slots[fd]) && req == TIOCEXCL {
        LockKeepsLocks(t, nullDev, fd);
      }
    case FcntlCall(fd, cmd) =>
  }

  lemma {:induction false} RunKeepsLocks(t: Table, nullDev: Dev, calls: seq<Call>)
    requires LockInv(t, nullDev) && AllPermitted(t, calls)
    ensures LockInv(Run(t, calls), nullDev)
    decreases |calls|
  {
    if calls != [] {
      StepKeepsLocks(t, nullDev, calls[0]);
      RunKeepsLocks(Step(t, calls[0]).0, nullDev, calls[1..]);
    }
  }

  /** Over every run from reset no two descriptors on one device both hold its lock, although a lock can be
      granted while another descriptor is open on the device. */
  lemma NeverTwoHolders(size: nat, nullDev: Dev, calls: seq<Call>)
    requires 3 <= size && AllPermitted(Initial(size, nullDev), calls)
    ensures OneHolder(Run(Initial(size, nullDev), calls))
  {
    InitialInv(size, nullDev);
    RunKeepsLocks(Initial(size, nullDev), nullDev, calls);
  }

  /** The lock step makes its descriptor the sole holder exactly when the slot at the high-water mark,
      which its scan leaves out, is not another descriptor on the same device. */
  lemma LockIsExclusiveIff(t: Table, nullDev: Dev, fd: nat)
    requires Inv(t, nullDev) && fd < |t.slots| && IsDevice(t.slots[fd])
    requires Lock(t, fd).1 == Ok(0)
    ensures SoleHolder(Lock(t, fd).0, fd) <==> (t.maxFd == fd || t.slots[t.maxFd].dev != t.slots[fd].dev)
  {
    DescriptorOfDevice(t, nullDev, fd);
    var u := Lock(t, fd).0;
    assert !SharedBelowMark(t, fd);
    forall j | 0 <= j < |t.slots| && j != fd && j != t.maxFd
      ensures u.slots[j].dev != u.slots[fd].dev
    {
      assert t.slots[j].dev == t.slots[fd].dev ==> j < t.maxFd;
    }
    assert u.slots[t.maxFd].dev == t.slots[t.maxFd].dev;
  }

  /** The missing step of the scan matters: open a device twice, and the first descriptor gets the lock
      although the second one refers to the device as well. */
  lemma LockIsGrantedOnSharedDevice(nullDev: Dev, dev: Dev)
    requires !dev.isFs && dev != nullDev
    ensures var open := OpenCall(Some(dev), ZERO, 0);
            var calls := [open, open, IoctlCall(3, TIOCEXCL, None)];
            var s := Slot(Some(dev), OpenFlags(dev, ZERO));
            && AllPermitted(Initial(8, nullDev), calls)
            && Run(Initial(8, nullDev), calls).slots ==
               Initial(8, nullDev).slots[3 := s.(flags := s.flags.(excl := true))][4 := s]
  {
    var t0 := Initial(8, nullDev);
    var open := OpenCall(Some(dev), ZERO, 0);
    var lock := IoctlCall(3, TIOCEXCL, None);
    var s := Slot(Some(dev), OpenFlags(dev, ZERO));
    FirstFreeIs(t0.slots, 3);
    var t1 := Table(t0.slots[3 := s], 3);
    assert Step(t0, open).0 == t1;
    FirstFreeIs(t1.slots, 4);
    var t2 := Table(t1.slots[4 := s], 4);
    assert Step(t1, open).0 == t2;
    assert !SharedBelowMark(t2, 3);
    var t3 := Step(t2, lock).0;
    assert AllPermitted(t3, []) && Run(t3, []) == t3;
    RunOne(t2, lock, []);
    RunOne(t1, open, [lock]);
    RunOne(t0, open, [open, lock]);
    assert [open] + [open, lock] == [open, open, lock] && [open] + [lock] == [open, lock] && [lock] + [] == [lock];
    assert t3.slots == t0.slots[3 := s.(flags := s.flags.(excl := true))][4 := s];
  }

  lemma RunOne(t: Table, c: Call, calls: seq<Call>)
    requires Permitted(t, c) && AllPermitted(Step(t, c).0, calls)
    ensures AllPermitted(t, [c] + calls) && Run(t, [c] + calls) == Run(Step(t, c).0, calls)
  {
    assert ([c] + calls)[1..] == calls;
  }

  lemma {:induction false} FirstFreeIs(slots: seq<Slot>, i: nat)
    requires i < |slots| && slots[i].dev == None && forall j :: 0 <= j < i ==> slots[j].dev != None
    ensures FirstFree(slots) == i
  {
  }

  /** An open of a device on which nobody holds the lock succeeds, if there is a free slot and the driver agrees. */
  lemma UnlockedDeviceOpens(t: Table, dev: Dev, flags: Flags, driver: int)
    requires FirstFree(t.slots) < |t.slots| && 0 <= driver
    requires forall j :: 0 <= j < |t.slots| && t.slots[j].dev == Some(dev) ==> !IsExclusive(t.slots[j])
    ensures Open(t, Some(dev), flags, driver).1 == Ok(FirstFree(t.slots))
  {
    var i := FirstFree(t.slots);
    var a := Allocate(t, dev);
    var own := flags.WithoutOwn();
    var v := a.(slots := a.slots[i := a.slots[i].(flags := if dev.isFs then own else own.(dev := true))]);
    assert forall j :: 0 <= j < |v.slots| && j != i ==> v.slots[j] == t.slots[j];
    assert !LockedByOther(v, i);
  }

  /** Giving the lock up works: afterwards no descriptor on the device holds a lock, and an open succeeds
      if there is a free slot and the driver agrees. */
  lemma GivingUpReleases(t: Table, nullDev: Dev, h: nat, c: Call, flags: Flags, driver: int)
    requires Inv(t, nullDev) && SoleHolder(t, h) && Permitted(t, c) && GivesUp(c, h) && 0 <= driver
    ensures var u := Step(t, c).0;
            FirstFree(u.slots) < |u.slots| ==> Open(u, t.slots[h].dev, flags, driver).1 == Ok(FirstFree(u.slots))
  {
    DescriptorOfDevice(t, nullDev, h);
    var u := Step(t, c).0;
    forall j | 0 <= j < |u.slots| && u.slots[j].dev == t.slots[h].dev
      ensures !IsExclusive(u.slots[j])
    {
    }
    if FirstFree(u.slots) < |u.slots| {
      UnlockedDeviceOpens(u, t.slots[h].dev.value, flags, driver);
    }
  }

  // ----- what each call does, slot by slot -----

  /** `close` frees any descriptor above the standard ones, whatever the driver answers, and nothing else;
      a negative descriptor is refused. */
  lemma CloseFreesOneSlot(t: Table, fd: int, driver: int)
    requires fd < |t.slots|
    ensures var (u, r) := Close(t, fd, driver);
            && |u.slots| == |t.slots| && u.maxFd == t.maxFd
            && (forall j :: 0 <= j < |t.slots| && j != fd ==> u.slots[j] == t.slots[j])
            && (2 < fd ==> u.slots[fd].dev == None && u.slots[fd].flags == Flags(false, false, false, false, 0))
            && (0 <= fd <= 2 ==> u.slots[fd] == t.slots[fd])
            && r == if fd < 0 then Failed(EBADFD) else if driver < 0 then Failed(FromDriver(driver)) else Ok(0)
  {
  }

  /** Some descriptor holds the lock of the device. */
  ghost predicate IsLocked(t: Table, dev: Dev) {
    exists j :: 0 <= j < |t.slots| && t.slots[j].dev == Some(dev) && t.slots[j].flags.excl
  }

  /** What `open` returns: it fails exactly when the name is unknown, the pool is full, a descriptor holds the
      lock of the device or the driver refuses, in this order; otherwise it returns the least free index. */
  lemma OpenOutcomeIs(t: Table, nullDev: Dev, found: Option<Dev>, flags: Flags, driver: int)
    requires Inv(t, nullDev)
    ensures Open(t, found, flags, driver).1 ==
            if found == None then Failed(ENODEV)
            else if forall j :: 0 <= j < |t.slots| ==> t.slots[j].dev != None then Failed(EMFILE)
            else if IsLocked(t, found.value) then Failed(EACCES)
            else if driver < 0 then Failed(FromDriver(driver))
            else Ok(FirstFree(t.slots))
  {
    var i := FirstFree(t.slots);
    if found != None && i < |t.slots| {
      OpenLockCheck(t, nullDev, found.value, flags);
      assert t.slots[i].dev == None;
    }
  }

  /** What a successful open leaves: one slot refers to the device, with the flags asked for but no lock, and
      marked as a device's or not; nothing else in the pool changes but the mark. */
  lemma OpenFillsOneSlot(t: Table, nullDev: Dev, dev: Dev, flags: Flags, driver: int)
    requires Inv(t, nullDev) && Open(t, Some(dev), flags, driver).1.Ok?
    ensures var (u, r) := Open(t, Some(dev), flags, driver);
            && 2 < r.value < |u.slots| == |t.slots|
            && u.slots[r.value].dev == Some(dev)
            && u.slots[r.value].flags == Flags(false, !dev.isFs, flags.append, flags.nonblock, flags.others)
            && (forall j :: 0 <= j < |t.slots| && j != r.value ==> u.slots[j] == t.slots[j])
            && u.maxFd == if t.maxFd < r.value then r.value else t.maxFd
  {
    OpenIsAllOrNothing(t, Some(dev), flags, driver);
  }

  /** The pool at reset. */
  lemma InitialPoolIs(size: nat, nullDev: Dev, i: nat)
    requires 3 <= size && i < size
    ensures |Initial(size, nullDev).slots| == size && Initial(size, nullDev).maxFd == -1
    ensures Initial(size, nullDev).slots[i] ==
            Slot(if i < 3 then Some(nullDev) else None, Flags(false, false, false, false, 0))
  {
  }

  /** The lock check of `open` finds a holder exactly if there is one. */
  lemma OpenLockCheck(t: Table, nullDev: Dev, dev: Dev, flags: Flags)
    requires Inv(t, nullDev) && FirstFree(t.slots) < |t.slots|
    ensures var i, a, own := FirstFree(t.slots), Allocate(t, dev), flags.WithoutOwn();
            var u := a.(slots := a.slots[i := a.slots[i].(flags := if dev.isFs then own else own.(dev := true))]);
            !dev.isFs && LockedByOther(u, i) <==> IsLocked(t, dev)
  {
    var i, a, own := FirstFree(t.slots), Allocate(t, dev), flags.WithoutOwn();
    var u := a.(slots := a.slots[i := a.slots[i].(flags := if dev.isFs then own else own.(dev := true))]);
    if j :| 0 <= j < |t.slots| && t.slots[j].dev == Some(dev) && t.slots[j].flags.excl {
      DescriptorOfDevice(t, nullDev, j);
      assert u.slots[j] == t.slots[j] && u.slots[i].dev == Some(dev);
      assert LockedByOther(u, i);
    }
    if !dev.isFs && LockedByOther(u, i) {
      var j :| 0 <= j <= u.maxFd && j < |u.slots| && j != i
               && u.slots[j].dev == u.slots[i].dev && IsExclusive(u.slots[j]);
      assert t.slots[j] == u.slots[j];
    }
  }

  /** A lock is granted exactly when no other slot below the mark refers to the device; it sets the one flag. */
  lemma LockIsGrantedIff(t: Table, fd: nat)
    requires fd < |t.slots|
    ensures var (u, r) := Lock(t, fd);
            && (r == Ok(0) <==>
                  forall j :: 0 <= j < |t.slots| && j < t.maxFd && j != fd ==> t.slots[j].dev != t.slots[fd].dev)
            && (r != Ok(0) ==> r == Failed(EACCES) && u == t)
            && (r == Ok(0) ==>
                  && |u.slots| == |t.slots| && u.maxFd == t.maxFd && u.slots[fd].dev == t.slots[fd].dev
                  && (forall j :: 0 <= j < |t.slots| && j != fd ==> u.slots[j] == t.slots[j])
                  && u.slots[fd].flags.excl && SameButLock(u.slots[fd].flags, t.slots[fd].flags))
  {
    if SharedBelowMark(t, fd) {
      var i :| 0 <= i < t.maxFd && i < |t.slots| && i != fd && t.slots[i].dev == t.slots[fd].dev;
    }
  }

  ghost predicate SameButLock(a: Flags, b: Flags) {
    a.dev == b.dev && a.append == b.append && a.nonblock == b.nonblock && a.others == b.others
  }

  /** `ioctl`: a device's lock requests lock and unlock, whatever the driver; any other request changes nothing
      and hands back what the driver answers, or fails for want of a driver. */
  lemma IoctlRoutes(t: Table, fd: int, req: Request, driver: Option<int>)
    requires fd < |t.slots|
    ensures var (u, r) := Ioctl(t, fd, req, driver);
            && (fd < 0 ==> (u, r) == (t, Failed(EBADFD)))
            && (0 <= fd && t.slots[fd].flags.dev && req == TIOCEXCL ==> (u, r) == Lock(t, fd))
            && (0 <= fd && t.slots[fd].flags.dev && req == TIOCNXCL ==>
                  && r == Ok(0) && |u.slots| == |t.slots| && u.maxFd == t.maxFd && u.slots[fd].dev == t.slots[fd].dev
                  && (forall j :: 0 <= j < |t.slots| && j != fd ==> u.slots[j] == t.slots[j])
                  && !u.slots[fd].flags.excl && SameButLock(u.slots[fd].flags, t.slots[fd].flags))
            && (0 <= fd && (!t.slots[fd].flags.dev || req == OtherRequest) ==>
                  u == t && r == if driver == None then Failed(ENOTTY)
                                 else if driver.value < 0 then Failed(FromDriver(driver.value)) else Ok(driver.value))
  {
  }

  /** Flags that were set are read back: the two settable ones as given, the others as they were before, and
      the system's own two hidden.  Setting them leaves the system's own two, the device and all other slots. */
  lemma SetFlagsAreReadBack(t: Table, fd: nat, flags: Flags)
    requires fd < |t.slots|
    ensures var (u, r) := Fcntl(t, fd, F_SETFL(flags));
            && r == Ok(0) && |u.slots| == |t.slots| && u.maxFd == t.maxFd
            && (forall j :: 0 <= j < |t.slots| && j != fd ==> u.slots[j] == t.slots[j])
            && u.slots[fd].dev == t.slots[fd].dev
            && u.slots[fd].flags.excl == t.slots[fd].flags.excl && u.slots[fd].flags.dev == t.slots[fd].flags.dev
            && Fcntl(u, fd, F_GETFL) ==
               (u, OkFlags(Flags(false, false, flags.append, flags.nonblock, t.slots[fd].flags.others)))
  {
  }

  /** Reading flags, an unknown command and a negative descriptor change nothing. */
  lemma FcntlOtherwiseReads(t: Table, fd: int, cmd: Command)
    requires fd < |t.slots| && (fd < 0 || !cmd.F_SETFL?)
    ensures var (u, r) := Fcntl(t, fd, cmd);
            && u == t
            && (fd < 0 ==> r == Failed(EBADFD))
            && (0 <= fd && cmd == OtherCommand ==> r == Failed(EINVAL))
            && (0 <= fd && cmd == F_GETFL ==>
                  var f := t.slots[fd].flags; r == OkFlags(Flags(false, false, f.append, f.nonblock, f.others)))
  {
  }

  /** The mark moves only when an open, successful or not, allocates beyond it, and then to that index. */
  lemma MarkMovesIff(t: Table, nullDev: Dev, c: Call)
    requires Inv(t, nullDev) && Permitted(t, c)
    ensures Step(t, c).0.maxFd ==
            if c.OpenCall? && c.found != None && t.maxFd < FirstFree(t.slots) < |t.slots|
            then FirstFree(t.slots) else t.maxFd
  {
    if c.OpenCall? && c.found != None && FirstFree(t.slots) < |t.slots| {
      OpenedOrUndone(t, c.found.value, c.flags, c.driver);
    }
  }

  // ----- which descriptors are in use -----

  /** A call gives a slot a device only by opening it there, and takes it away only by closing it. */
  lemma DeviceAfterStep(t: Table, nullDev: Dev, c: Call, fd: nat)
    requires Inv(t, nullDev) && Permitted(t, c) && 2 < fd < |t.slots|
    ensures var (u, r) := Step(t, c);
            && |u.slots| == |t.slots|
            && u.slots[fd].dev ==
               if c.OpenCall? && r == Ok(fd) then c.found
               else if c.CloseCall? && c.fd == fd then None
               else t.slots[fd].dev
  {
    if c.OpenCall? {
      OpenIsAllOrNothing(t, c.found, c.flags, c.driver);
    }
  }

  /** The `i`-th call of the run opened `fd`, and none of the calls from there to the `n`-th closed it. */
  ghost predicate OpenedBy(t: Table, calls: seq<Call>, n: nat, fd: nat, i: nat)
    requires AllPermitted(t, calls) && n <= |calls|
  {
    && i < n && calls[i].OpenCall? && Permitted(After(t, calls, i), calls[i])
    && Step(After(t, calls, i), calls[i]).1 == Ok(fd)
    && forall j :: i < j < n ==> !(calls[j].CloseCall? && calls[j].fd == fd)
  }

  ghost predicate IsOpened(t: Table, calls: seq<Call>, n: nat, fd: nat)
    requires AllPermitted(t, calls) && n <= |calls|
  {
    exists i: nat :: OpenedBy(t, calls, n, fd, i)
  }

  /** What the next call makes of an opening. */
  lemma OpenedByNext(t: Table, calls: seq<Call>, n: nat, m: nat, fd: nat, i: nat)
    requires AllPermitted(t, calls) && m == n + 1 <= |calls| && Permitted(After(t, calls, n), calls[n])
    ensures OpenedBy(t, calls, m, fd, i) <==>
              || (OpenedBy(t, calls, n, fd, i) && !(calls[n].CloseCall? && calls[n].fd == fd))
              || (i == n && calls[n].OpenCall? && Step(After(t, calls, n), calls[n]).1 == Ok(fd))
  {
  }

  /** An open returns a slot that was free. */
  lemma OpenTakesFree(t: Table, nullDev: Dev, c: Call, fd: nat)
    requires Inv(t, nullDev) && c.OpenCall? && Step(t, c).1 == Ok(fd)
    ensures fd < |t.slots| && t.slots[fd].dev == None
  {
    OpenIsAllOrNothing(t, c.found, c.flags, c.driver);
  }

  /** A slot is in use, for the device it was opened on, exactly if it is opened. */
  ghost predicate InUseIsOpened(t: Table, calls: seq<Call>, n: nat, fd: nat)
    requires AllPermitted(t, calls) && n <= |calls|
  {
    var u := After(t, calls, n);
    && fd < |u.slots|
    && (u.slots[fd].dev != None <==> IsOpened(t, calls, n, fd))
    && forall i: nat :: OpenedBy(t, calls, n, fd, i) ==> u.slots[fd].dev == calls[i].found
  }

  lemma InUseStep(t: Table, nullDev: Dev, calls: seq<Call>, n: nat, m: nat, fd: nat)
    requires AllPermitted(t, calls) && m == n + 1 <= |calls| && 2 < fd
    requires Inv(After(t, calls, n), nullDev) && Permitted(After(t, calls, n), calls[n])
    requires After(t, calls, m) == Step(After(t, calls, n), calls[n]).0
    requires InUseIsOpened(t, calls, n, fd)
    ensures InUseIsOpened(t, calls, m, fd)
  {
    var u, c, v := After(t, calls, n), calls[n], After(t, calls, m);
    DeviceAfterStep(u, nullDev, c, fd);
    if c.OpenCall? && Step(u, c).1 == Ok(fd) {
      OpenTakesFree(u, nullDev, c, fd);
      OpenIsAllOrNothing(u, c.found, c.flags, c.driver);
      OpenedByNext(t, calls, n, m, fd, n);
      assert OpenedBy(t, calls, m, fd, n);
    } else if v.slots[fd].dev != None {
      var i: nat :| OpenedBy(t, calls, n, fd, i);
      OpenedByNext(t, calls, n, m, fd, i);
      assert OpenedBy(t, calls, m, fd, i);
    }
    forall i: nat | OpenedBy(t, calls, m, fd, i)
      ensures v.slots[fd].dev == calls[i].found && calls[i].found != None
    {
      OpenedByNext(t, calls, n, m, fd, i);
      OpenIsAllOrNothing(After(t, calls, i), calls[i].found, calls[i].flags, calls[i].driver);
    }
  }

  lemma {:induction false} InUseAfter(t: Table, nullDev: Dev, calls: seq<Call>, n: nat, fd: nat)
    requires Inv(t, nullDev) && AllPermitted(t, calls) && n <= |calls| && 2 < fd < |t.slots| && t.slots[fd].dev == None
    ensures InUseIsOpened(t, calls, n, fd)
  {
    if n > 0 {
      InUseAfter(t, nullDev, calls, n - 1, fd);
      AfterOneMore(t, calls, n - 1);
      AfterKeeps(t, nullDev, calls, n - 1);
      InUseStep(t, nullDev, calls, n - 1, n, fd);
    }
  }

  /** Over every run from reset, a descriptor above the standard ones is in use, for the device it was opened
      on, exactly if a successful open returned it and no close of it followed. */
  lemma InUseIffOpened(size: nat, nullDev: Dev, calls: seq<Call>, fd: nat)
    requires 2 < fd < size && AllPermitted(Initial(size, nullDev), calls)
    ensures var t := Initial(size, nullDev);
            var u := Run(t, calls);
            && fd < |u.slots|
            && (u.slots[fd].dev != None <==> exists i: nat :: OpenedBy(t, calls, |calls|, fd, i))
            && (forall i: nat :: OpenedBy(t, calls, |calls|, fd, i) ==> u.slots[fd].dev == calls[i].found)
  {
    InitialInv(size, nullDev);
    InUseAfter(Initial(size, nullDev), nullDev, calls, |calls|, fd);
    AfterAllIsRun(Initial(size, nullDev), calls);
  }
}
