/** The web client's main loop: at most maxconn non-blocking connections at a time, driven by
    select, until every file has been read. */
module ConnectionScheduler {

  /** f_flags: 0, F_CONNECTING, F_READING, F_DONE */
  datatype Flag = Unstarted | Connecting | Reading | Done

  datatype Tally = Tally(unstarted: nat, connecting: nat, reading: nat)

  function Count(flags: seq<Flag>): Tally {
    if flags == [] then Tally(0, 0, 0)
    else Add(Count(flags[..|flags| - 1]), flags[|flags| - 1])
  }

  function Add(t: Tally, f: Flag): Tally {
    match f
    case Unstarted => t.(unstarted := t.unstarted + 1)
    case Connecting => t.(connecting := t.connecting + 1)
    case Reading => t.(reading := t.reading + 1)
    case Done => t
  }

  lemma {:induction false} CountMove(flags: seq<Flag>, i: nat, f: Flag)
    requires i < |flags|
    ensures Add(Count(flags[i := f]), flags[i]) == Add(Count(flags), f)
  {
    var last := |flags| - 1;
    if i == last {
      assert flags[i := f][..last] == flags[..last];
    } else {
      CountMove(flags[..last], i, f);
      assert flags[i := f][..last] == flags[..last][i := f];
    }
  }

  lemma {:induction false} CountMember(flags: seq<Flag>, i: nat)
    requires i < |flags|
    ensures flags[i].Unstarted? ==> Count(flags).unstarted > 0
    ensures flags[i].Connecting? ==> Count(flags).connecting > 0
    ensures flags[i].Reading? ==> Count(flags).reading > 0
  {
    if i < |flags| - 1 { CountMember(flags[..|flags| - 1], i); }
  }

  /** A positive count has a witness. */
  lemma {:induction false} CountWitness(flags: seq<Flag>)
    ensures Count(flags).unstarted > 0 ==> exists i :: 0 <= i < |flags| && flags[i].Unstarted?
    ensures Count(flags).connecting + Count(flags).reading > 0 ==>
              exists i :: 0 <= i < |flags| && (flags[i].Connecting? || flags[i].Reading?)
  {
    if flags != [] {
      var front := flags[..|flags| - 1];
      CountWitness(front);
      if i :| 0 <= i < |front| && front[i].Unstarted? { assert flags[i].Unstarted?; }
      if i :| 0 <= i < |front| && (front[i].Connecting? || front[i].Reading?) {
        assert flags[i].Connecting? || flags[i].Reading?;
      }
    }
  }

  lemma {:induction false} CountSize(flags: seq<Flag>)
    ensures var t := Count(flags); t.unstarted + t.connecting + t.reading <= |flags|
    ensures Count(flags) == Tally(0, 0, 0) ==> forall i | 0 <= i < |flags| :: flags[i].Done?
  {
    if flags != [] { CountSize(flags[..|flags| - 1]); }
  }

  /** Steps still to go: an unstarted file has three before it. */
  function Work(t: Tally): nat {
    3 * t.unstarted + 2 * t.connecting + t.reading
  }

  class Scheduler {
    const maxconn: int
    const flags: array<Flag>
    const fds: array<int>
    var nconn: int
    var nlefttoconn: int
    var nlefttoread: int
    var rset: set<int>
    var wset: set<int>
    var maxfd: int

    /** The counters say how many files are in which state, and the descriptor sets watch
        exactly the open connections. */
    ghost predicate Valid()
      reads this, flags, fds
    {
      var t := Count(flags[..]);
      && fds.Length == flags.Length
      && nlefttoconn == t.unstarted && nconn == t.connecting + t.reading
      && nlefttoread == nlefttoconn + nconn
      && (nconn <= maxconn || nconn == 0)
      && Watched(flags[..], fds[..], rset, wset)
      && Below(rset, maxfd + 1) == rset && Below(wset, maxfd + 1) == wset
    }

    constructor (nfiles: nat, maxconn: int)
      ensures Valid() && flags.Length == nfiles && this.maxconn == maxconn && fresh(flags) && fresh(fds)
      ensures nlefttoread == nfiles && Count(flags[..]) == Tally(nfiles, 0, 0)
    {
      this.maxconn := maxconn;
      flags := new Flag[nfiles](_ => Unstarted);
      fds := new int[nfiles](_ => -1);
      nconn, nlefttoconn, nlefttoread := 0, nfiles, nfiles;
      rset, wset, maxfd := {}, {}, -1;
      new;
      AllUnstarted(flags[..]);
    }

    ghost function Left(): nat
      reads flags
    {
      Work(Count(flags[..]))
    }

    /** start_connect on file i, with the counting main does right after it; fd is the socket. */
    method StartConnect(i: nat, fd: int)
      requires Valid() && i < flags.Length && flags[i] == Unstarted && nconn < maxconn
      requires fd !in rset
      modifies this`rset, this`wset, this`maxfd, this`nconn, this`nlefttoconn, flags, fds
      ensures Valid() && flags[..] == old(flags[..])[i := Connecting] && Left() == old(Left()) - 1
      ensures nconn == old(nconn) + 1 && nlefttoconn == old(nlefttoconn) - 1
      ensures fds[..] == old(fds[..])[i := fd] && rset == old(rset) + {fd} && wset == old(wset) + {fd}
      ensures maxfd == if fd > old(maxfd) then fd else old(maxfd)
    {
      CountMove(flags[..], i, Connecting);
      WatchStarted(flags[..], fds[..], rset, wset, i, fd);
      rset := rset + {fd};
      wset := wset + {fd};
      if fd > maxfd {
        maxfd := fd;
      }
      ghost var before := flags[..];
      ghost var fdsBefore := fds[..];
      flags[i] := Connecting;
      fds[i] := fd;
      assert flags[..] == before[i := Connecting] && fds[..] == fdsBefore[i := fd];
      nconn := nconn + 1;
      nlefttoconn := nlefttoconn - 1;
    }

    /** What may have become of the files when some were started: the unstarted ones of lowest index
        are connecting, and nothing else has changed. */
    twostate predicate Started()
      reads flags, fds
    {
      && fds.Length == flags.Length
      && (forall i | 0 <= i < flags.Length ::
            (flags[i] == old(flags[i]) && fds[i] == old(fds[i])) || (old(flags[i]) == Unstarted && flags[i] == Connecting))
      && (forall i, j | 0 <= i < j < flags.Length && flags[i] == Unstarted :: flags[j] == old(flags[j]))
    }

    /** The inner while loop of main: start files, from the first unstarted one on, while connections
        are free. */
    method FillConnections()
      requires Valid()
      modifies this`rset, this`wset, this`maxfd, this`nconn, this`nlefttoconn, flags, fds
      ensures Valid() && Left() <= old(Left()) && nlefttoread == old(nlefttoread)
      ensures nconn >= maxconn || nlefttoconn == 0
      ensures Started() && (nconn <= maxconn || nconn == old(nconn))
    {
      while nconn < maxconn && nlefttoconn > 0
        invariant Valid() && Left() <= old(Left()) && Started() && (nconn <= maxconn || nconn == old(nconn))
        invariant nlefttoread == old(nlefttoread)
        decreases nlefttoconn
      {
        var i := StartFirst();
      }
    }

    /** One round of it.  The exit "nothing found" would be taken for i == flags.Length. */
    method StartFirst() returns (i: nat)
      requires Valid() && nconn < maxconn && nlefttoconn > 0
      modifies this`rset, this`wset, this`maxfd, this`nconn, this`nlefttoconn, flags, fds
      ensures Valid() && i < flags.Length && Left() == old(Left()) - 1
      ensures nconn == old(nconn) + 1 && nlefttoconn == old(nlefttoconn) - 1
      ensures old(flags[i]) == Unstarted && flags[i] == Connecting && forall k | 0 <= k < i :: flags[k] != Unstarted
      ensures forall k | 0 <= k < flags.Length && k != i :: flags[k] == old(flags[k]) && fds[k] == old(fds[k])
    {
      CountWitness(flags[..]);
      i := 0;
      while i < flags.Length && flags[i] != Unstarted
        invariant 0 <= i <= flags.Length && forall k | 0 <= k < i :: flags[k] != Unstarted
      {
        i := i + 1;
      }
      assert i < flags.Length;
      var fd := Socket(rset);
      ghost var files, descriptors := flags[..], fds[..];
      StartConnect(i, fd);
      assert flags[..] == files[i := Connecting] && fds[..] == descriptors[i := fd];
    }

    /** One file of the loop after select. */
    method HandleFile(i: nat, rs: set<int>, ws: set<int>)
      requires Valid() && i < flags.Length
      modifies this`rset, this`wset, this`nconn, this`nlefttoread, flags
      ensures Valid() && nlefttoconn == old(nlefttoconn)
      ensures flags[..] == old(flags[..])[i := After(old(flags[i]), fds[i], rs, ws)]
      ensures Left() == old(Left()) - if Ready(old(flags[i]), fds[i], rs, ws) then 1 else 0
      ensures wset == if old(flags[i]).Connecting? && flags[i].Reading? then old(wset) - {fds[i]} else old(wset)
      ensures rset == if old(flags[i]).Reading? && flags[i].Done? then old(rset) - {fds[i]} else old(rset)
    {
      var fd := fds[i];
      if flags[i] == Connecting && (fd in rs || fd in ws) {
        BeginReading(i);
      } else if flags[i] == Reading && fd in rs {
        Finish(i);
      }
    }

    /** The connection is there. */
    method BeginReading(i: nat)
      requires Valid() && i < flags.Length && flags[i] == Connecting
      modifies this`wset, flags
      ensures Valid() && flags[..] == old(flags[..])[i := Reading] && wset == old(wset) - {fds[i]}
      ensures Left() == old(Left()) - 1
    {
      ghost var before := flags[..];
      CountMove(before, i, Reading);
      WatchConnected(before, fds[..], rset, wset, i);
      wset := wset - {fds[i]};
      flags[i] := Reading;
      assert flags[..] == before[i := Reading];
    }

    /** The end of the file is there. */
    method Finish(i: nat)
      requires Valid() && i < flags.Length && flags[i] == Reading
      modifies this`rset, this`nconn, this`nlefttoread, flags
      ensures Valid() && flags[..] == old(flags[..])[i := Done] && rset == old(rset) - {fds[i]}
      ensures Left() == old(Left()) - 1
    {
      ghost var before := flags[..];
      CountMove(before, i, Done);
      WatchDone(before, fds[..], rset, wset, i);
      flags[i] := Done;
      assert flags[..] == before[i := Done];
      rset := rset - {fds[i]};
      nconn := nconn - 1;
      nlefttoread := nlefttoread - 1;
    }

    /** The loop after select: every file whose descriptor was reported moves on by one step, and every
        other file stays as it is. */
    method HandleReady(rs: set<int>, ws: set<int>)
      requires Valid() && rs <= rset && ws <= wset && Any(rs, ws)
      modifies this`rset, this`wset, this`nconn, this`nlefttoread, flags
      ensures Valid() && Left() < old(Left()) && nlefttoconn == old(nlefttoconn)
      ensures forall i | 0 <= i < flags.Length ::
                flags[i] == if old(flags[i]) == Connecting && (fds[i] in rs || fds[i] in ws) then Reading
                            else if old(flags[i]) == Reading && fds[i] in rs then Done
                            else old(flags[i])
    {
      ghost var before := flags[..];
      ghost var moved := false;
      for i := 0 to flags.Length
        invariant Valid() && Left() <= old(Left()) && (moved ==> Left() < old(Left()))
        invariant flags[i..] == before[i..] && nlefttoconn == old(nlefttoconn)
        invariant forall k | 0 <= k < i :: flags[k] == After(before[k], fds[k], rs, ws)
        invariant forall k | 0 <= k < i && Ready(before[k], fds[k], rs, ws) :: moved
      {
        assert flags[i] == flags[i..][0] == before[i] && flags[i..][1..] == before[i + 1..];
        moved := moved || Ready(flags[i], fds[i], rs, ws);
        ghost var now := flags[..];
        HandleFile(i, rs, ws);
        assert flags[..] == now[i := After(before[i], fds[i], rs, ws)];
      }
      SomeoneReady(before, fds[..], old(rset), old(wset), rs, ws);
    }

    /** When main calls select, there is something to wait for exactly if maxconn is positive. */
    lemma SelectHasWorkIff()
      requires Valid() && nlefttoread > 0 && (nconn >= maxconn || nlefttoconn == 0)
      ensures Any(Below(rset, maxfd + 1), Below(wset, maxfd + 1)) <==> maxconn >= 1
      ensures forall fd | fd in rset + wset :: fd < maxfd + 1
    {
      SomethingWatched(flags[..], fds[..], rset, wset);
    }

    /** The main loop, for a select that returns only when something is ready. */
    method Run()
      requires Valid() && maxconn >= 1
      modifies this`rset, this`wset, this`maxfd, this`nconn, this`nlefttoconn, this`nlefttoread, flags, fds
      ensures Valid() && nlefttoread == 0 && forall i | 0 <= i < flags.Length :: flags[i] == Done
    {
      while nlefttoread > 0
        invariant Valid()
        decreases Left()
      {
        FillConnections();
        SelectHasWorkIff();
        var rs, ws := Select(maxfd + 1, rset, wset);
        HandleReady(rs, ws);
      }
      CountSize(flags[..]);
    }
  }

  lemma {:induction false} AllUnstarted(flags: seq<Flag>)
    requires forall i | 0 <= i < |flags| :: flags[i].Unstarted?
    ensures Count(flags) == Tally(|flags|, 0, 0)
  {
    if flags != [] { AllUnstarted(flags[..|flags| - 1]); }
  }

  predicate Active(f: Flag) {
    f.Connecting? || f.Reading?
  }

  ghost predicate Watched(flags: seq<Flag>, fds: seq<int>, rset: set<int>, wset: set<int>) {
    && |fds| == |flags|
    && (forall i | 0 <= i < |flags| && Active(flags[i]) :: fds[i] in rset)
    && (forall i | 0 <= i < |flags| && flags[i].Connecting? :: fds[i] in wset)
    && (forall fd | fd in rset :: exists i :: 0 <= i < |flags| && Active(flags[i]) && fds[i] == fd)
    && (forall fd | fd in wset :: exists i :: 0 <= i < |flags| && flags[i].Connecting? && fds[i] == fd)
    && (forall i, j | 0 <= i < j < |flags| && Active(flags[i]) && Active(flags[j]) :: fds[i] != fds[j])
  }

  lemma WatchStarted(flags: seq<Flag>, fds: seq<int>, rset: set<int>, wset: set<int>, i: nat, fd: int)
    requires Watched(flags, fds, rset, wset) && i < |flags| && flags[i].Unstarted? && fd !in rset
    ensures Watched(flags[i := Connecting], fds[i := fd], rset + {fd}, wset + {fd})
  {
    var flags', fds' := flags[i := Connecting], fds[i := fd];
    forall g | g in rset + {fd} ensures exists k :: 0 <= k < |flags'| && Active(flags'[k]) && fds'[k] == g {
      if g == fd { assert Active(flags'[i]) && fds'[i] == g; } else {
        var k :| 0 <= k < |flags| && Active(flags[k]) && fds[k] == g;
        assert Active(flags'[k]) && fds'[k] == g;
      }
    }
    forall g | g in wset + {fd} ensures exists k :: 0 <= k < |flags'| && flags'[k].Connecting? && fds'[k] == g {
      if g == fd { assert flags'[i].Connecting? && fds'[i] == g; } else {
        var k :| 0 <= k < |flags| && flags[k].Connecting? && fds[k] == g;
        assert flags'[k].Connecting? && fds'[k] == g;
      }
    }
  }

  /** Some descriptor is in one of the sets. */
  predicate Any(rs: set<int>, ws: set<int>) {
    exists fd :: fd in rs + ws
  }

  /** What select looks at when it is told to look below nfds. */
  function Below(fds: set<int>, nfds: int): set<int> {
    set fd | fd in fds && fd < nfds
  }

  /** A file that the loop after select will move on. */
  predicate Ready(f: Flag, fd: int, rs: set<int>, ws: set<int>) {
    (f.Connecting? && (fd in rs || fd in ws)) || (f.Reading? && fd in rs)
  }

  /** What that loop makes of a file. */
  function After(f: Flag, fd: int, rs: set<int>, ws: set<int>): Flag {
    if !Ready(f, fd, rs, ws) then f else if f.Connecting? then Reading else Done
  }

  lemma SomeoneReady(flags: seq<Flag>, fds: seq<int>, rset: set<int>, wset: set<int>, rs: set<int>, ws: set<int>)
    requires Watched(flags, fds, rset, wset) && rs <= rset && ws <= wset && Any(rs, ws)
    ensures exists i :: 0 <= i < |flags| && Ready(flags[i], fds[i], rs, ws)
  {
    var fd :| fd in rs + ws;
    if fd in ws {
      var i :| 0 <= i < |flags| && flags[i].Connecting? && fds[i] == fd;
      assert Ready(flags[i], fds[i], rs, ws);
    } else {
      var i :| 0 <= i < |flags| && Active(flags[i]) && fds[i] == fd;
      assert Ready(flags[i], fds[i], rs, ws);
    }
  }

  /** With a connection open there is something to select on. */
  lemma SomethingWatched(flags: seq<Flag>, fds: seq<int>, rset: set<int>, wset: set<int>)
    requires Watched(flags, fds, rset, wset)
    ensures Count(flags).connecting + Count(flags).reading > 0 <==> Any(rset, wset)
  {
    if Count(flags).connecting + Count(flags).reading > 0 {
      CountWitness(flags);
      var i :| 0 <= i < |flags| && (flags[i].Connecting? || flags[i].Reading?);
      assert Active(flags[i]) && fds[i] in rset + wset;
    } else {
      forall i | 0 <= i < |flags| ensures !Active(flags[i]) && !flags[i].Connecting? { CountMember(flags, i); }
    }
  }

  lemma WatchConnected(flags: seq<Flag>, fds: seq<int>, rset: set<int>, wset: set<int>, i: nat)
    requires Watched(flags, fds, rset, wset) && i < |flags| && flags[i].Connecting?
    ensures Watched(flags[i := Reading], fds, rset, wset - {fds[i]})
  {
    var flags' := flags[i := Reading];
    forall g | g in rset ensures exists k :: 0 <= k < |flags'| && Active(flags'[k]) && fds[k] == g {
      var k :| 0 <= k < |flags| && Active(flags[k]) && fds[k] == g;
      assert Active(flags'[k]) && fds[k] == g;
    }
    forall g | g in wset - {fds[i]} ensures exists k :: 0 <= k < |flags'| && flags'[k].Connecting? && fds[k] == g {
      var k :| 0 <= k < |flags| && flags[k].Connecting? && fds[k] == g;
      assert flags'[k].Connecting? && fds[k] == g;
    }
  }

  lemma WatchDone(flags: seq<Flag>, fds: seq<int>, rset: set<int>, wset: set<int>, i: nat)
    requires Watched(flags, fds, rset, wset) && i < |flags| && flags[i].Reading?
    ensures Watched(flags[i := Done], fds, rset - {fds[i]}, wset)
  {
    var flags' := flags[i := Done];
    forall g | g in rset - {fds[i]} ensures exists k :: 0 <= k < |flags'| && Active(flags'[k]) && fds[k] == g {
      var k :| 0 <= k < |flags| && Active(flags[k]) && fds[k] == g;
      assert Active(flags'[k]) && fds[k] == g;
    }
    forall g | g in wset ensures exists k :: 0 <= k < |flags'| && flags'[k].Connecting? && fds[k] == g {
      var k :| 0 <= k < |flags| && flags[k].Connecting? && fds[k] == g;
      assert flags'[k].Connecting? && fds[k] == g;
    }
  }

  /** socket: the lowest descriptor not in use. */
  method Socket(used: set<int>) returns (fd: int)
    ensures fd !in used && fd >= 0
    ensures forall g | 0 <= g < fd :: g in used
  {
    fd := 0;
    ghost var seen: set<int> := {};
    while fd in used
      invariant 0 <= fd && seen <= used && (forall g | 0 <= g < fd :: g in used) && forall g | g in seen :: g < fd
      decreases used - seen
    {
      seen := seen + {fd};
      fd := fd + 1;
    }
  }

  /** select without a timeout: returns when at least one watched descriptor below nfds is ready. */
  method Select(nfds: int, rset: set<int>, wset: set<int>) returns (rs: set<int>, ws: set<int>)
    requires Any(Below(rset, nfds), Below(wset, nfds))
    ensures rs <= Below(rset, nfds) && ws <= Below(wset, nfds) && Any(rs, ws)
  {
    rs, ws :| rs <= Below(rset, nfds) && ws <= Below(wset, nfds) && Any(rs, ws);
  }
}
