/**
 The server's registry: a doubly linked list of session records with a counter, kept in
 agreement with the global table of message queues indexed by descriptor.
 */
module SessionRegistry {
  import opened Options
  import opened Frames
  import opened TxRing
  import opened MessageQueues
  import opened ServerProtocol
  import opened FileTransferServer

  const MAX_FD_COUNT := 100

  // ---------- the queue table ----------

  predicate ApartAt(queues: seq<MessageQueue?>, i: nat, j: nat)
    requires i < |queues| && j < |queues|
  {
    queues[i] != null && queues[j] != null ==> Apart(queues[i], queues[j])
  }

  /** No two queues share a buffer. */
  ghost predicate AllApart(queues: seq<MessageQueue?>) {
    forall i, j {:trigger ApartAt(queues, i, j)} :: 0 <= i < j < |queues| ==> ApartAt(queues, i, j)
  }

  lemma OthersAreOther(queues: seq<MessageQueue?>, fd: nat)
    requires AllApart(queues) && fd < |queues| && queues[fd] != null
    ensures forall i :: 0 <= i < |queues| && i != fd && queues[i] != null ==>
              queues[i] != queues[fd] && queues[i].txBuffer != queues[fd].txBuffer
  {
    forall i | 0 <= i < |queues| && i != fd && queues[i] != null
      ensures queues[i] != queues[fd] && queues[i].txBuffer != queues[fd].txBuffer
    {
      assert if i < fd then ApartAt(queues, i, fd) else ApartAt(queues, fd, i);
    }
  }

  /** An entry may be emptied, or filled with a queue that is apart from all others. */
  lemma StayApart(queues: seq<MessageQueue?>, fd: nat, queue: MessageQueue?)
    requires AllApart(queues) && fd < |queues|
    requires queue != null ==> forall i :: 0 <= i < |queues| && queues[i] != null ==> Apart(queues[i], queue)
    ensures AllApart(queues[fd := queue])
  {
    var queues' := queues[fd := queue];
    forall i, j | 0 <= i < j < |queues'|
      ensures ApartAt(queues', i, j)
    {
      assert ApartAt(queues, i, j);
    }
  }

  /** `s` with `x` in one place, if there is such a place. */
  function Put<T>(s: seq<T>, i: int, x: T): seq<T> {
    if 0 <= i < |s| then s[i := x] else s
  }

  class QueueTable {
    const queues: array<MessageQueue?>
    /** The queues and their send buffers, those of destroyed queues included. */
    ghost var owned: set<MessageQueue>
    ghost var buffers: set<array<Byte>>

    ghost predicate Valid()
      reads this, queues, owned
    {
      && queues.Length == MAX_FD_COUNT
      && (forall fd :: 0 <= fd < MAX_FD_COUNT && queues[fd] != null ==>
            queues[fd] in owned && queues[fd].txBuffer in buffers && queues[fd].Valid())
      && AllApart(queues[..])
    }

    /** The descriptors that have a queue. */
    ghost function Occupied(): set<int>
      reads queues
    {
      set fd | 0 <= fd < queues.Length && queues[fd] != null
    }

    ghost function Slots(): (s: seq<MessageQueue?>)
      reads queues
      ensures |s| == queues.Length
    {
      queues[..]
    }

    /** What is queued, descriptor by descriptor. */
    ghost function Rings(): (r: seq<Option<Tx>>)
      requires Valid()
      reads this, queues, owned, buffers
      ensures |r| == MAX_FD_COUNT
      ensures forall fd :: 0 <= fd < MAX_FD_COUNT ==> r[fd] == RingAt(fd)
    {
      RingsBelow(MAX_FD_COUNT)
    }

    ghost function RingsBelow(n: nat): (r: seq<Option<Tx>>)
      requires Valid() && n <= MAX_FD_COUNT
      reads this, queues, owned, buffers
      ensures |r| == n
      ensures forall fd :: 0 <= fd < n ==> r[fd] == RingAt(fd)
    {
      if n == 0 then [] else RingsBelow(n - 1) + [RingAt(n - 1)]
    }

    ghost function RingAt(fd: nat): Option<Tx>
      requires Valid() && fd < MAX_FD_COUNT
      reads this, queues, owned, buffers
    {
      if queues[fd] == null then None else Some(queues[fd].Ring())
    }

    constructor ()
      ensures Valid() && Occupied() == {} && owned == {} && buffers == {} && fresh(queues)
    {
      queues := new MessageQueue?[MAX_FD_COUNT](_ => null);
      owned, buffers := {}, {};
    }

    /** Descriptors come from the system and are not negative; `memory` tells whether calloc() succeeds. */
    method Init(fd: nat, memory: bool) returns (ok: bool)
      requires Valid()
      modifies queues, `owned, `buffers
      ensures Valid()
      ensures fresh(owned - old(owned)) && fresh(buffers - old(buffers))
      ensures ok <==> fd < MAX_FD_COUNT && fd !in old(Occupied()) && memory
      ensures Occupied() == (if ok then old(Occupied()) + {fd} else old(Occupied()))
      ensures ok ==> fresh(queues[fd])
      ensures forall i :: 0 <= i < MAX_FD_COUNT && (ok ==> i != fd) ==> queues[i] == old(queues[i])
    {
      if fd >= MAX_FD_COUNT || queues[fd] != null {
        return false;
      }
      if !memory {
        return false;
      }
      var queue := new MessageQueue();
      StayApart(queues[..], fd, queue);
      queues[fd] := queue;
      owned, buffers := owned + {queue}, buffers + {queue.txBuffer};
      return true;
    }

    method Destroy(fd: nat) returns (ok: bool)
      requires Valid()
      modifies queues
      ensures Valid()
      ensures ok <==> fd in old(Occupied())
      ensures Occupied() == old(Occupied()) - {fd}
      ensures forall i :: 0 <= i < MAX_FD_COUNT && i != fd ==> queues[i] == old(queues[i])
    {
      if fd >= MAX_FD_COUNT || queues[fd] == null {
        return false;
      }
      StayApart(queues[..], fd, null);
      queues[fd] := null;
      return true;
    }
  }

  /** What the registry needs to know of the end of a session. */
  method LastWords(session: ClientSession, queue: MessageQueue, lastWrite: int) returns (written: seq<Byte>)
    requires queue.Valid()
    modifies session`fileFd, queue, queue.txBuffer
    ensures queue.Valid() && session.fileFd == Closed && written == LastFlush(old(queue.Ring()), lastWrite)
  {
    written := EndSession(session, queue, lastWrite);
  }

  /** The last message into a queue of the table and one flush leave the table and its other queues alone. */
  method FlushLast(table: QueueTable, fd: nat, session: ClientSession, lastWrite: int) returns (written: seq<Byte>)
    requires table.Valid() && fd in table.Occupied()
    modifies session`fileFd, table.queues[fd], table.queues[fd].txBuffer
    ensures table.Valid() && session.fileFd == Closed
    ensures written == LastFlush(old(table.queues[fd].Ring()), lastWrite)
    ensures forall i :: 0 <= i < MAX_FD_COUNT && i != fd ==> table.RingAt(i) == old(table.RingAt(i))
  {
    OthersAreOther(table.queues[..], fd);
    var queue := table.queues[fd];
    written := LastWords(session, queue, lastWrite);
    assert forall i :: 0 <= i < MAX_FD_COUNT && table.queues[i] != null ==> table.queues[i].Valid();
  }

  // ---------- the list ----------

  /** `sessions` are the records reachable from `head`, front to back, linked both ways. */
  ghost predicate Linked(head: ClientSession?, sessions: seq<ClientSession>)
    reads sessions
  {
    && head == At(sessions, 0)
    && (forall i {:trigger sessions[i].prev} :: 0 <= i < |sessions| ==> sessions[i].prev == At(sessions, i - 1))
    && (forall i {:trigger sessions[i].next} :: 0 <= i < |sessions| ==> sessions[i].next == At(sessions, i + 1))
  }

  function At(s: seq<ClientSession>, i: int): ClientSession? {
    if 0 <= i < |s| then s[i] else null
  }

  predicate Distinct(s: seq<ClientSession>) {
    forall i, j :: 0 <= i < j < |s| ==> s[i] != s[j]
  }

  function Members(s: seq<ClientSession>): set<ClientSession> {
    set t | t in s
  }

  function Without(s: seq<ClientSession>, k: nat): seq<ClientSession>
    requires k < |s|
  {
    s[..k] + s[k + 1..]
  }

  lemma WithoutAt(s: seq<ClientSession>, k: nat, i: int)
    requires k < |s|
    ensures At(Without(s, k), i) == At(s, if i < k then i else i + 1)
  {
  }

  lemma WithoutDistinct(s: seq<ClientSession>, k: nat)
    requires k < |s| && Distinct(s)
    ensures Distinct(Without(s, k)) && s[k] !in Without(s, k)
    ensures forall t :: t in s <==> t == s[k] || t in Without(s, k)
  {
    var r := Without(s, k);
    forall i | 0 <= i < |r|
      ensures r[i] == s[if i < k then i else i + 1]
    {
    }
    forall t | t in s && t != s[k]
      ensures t in r
    {
      var j :| 0 <= j < |s| && s[j] == t;
      assert r[if j < k then j else j - 1] == t;
    }
  }

  /** Links that bypass the session at `k` link the sequence without it. */
  lemma LinkedAround(head: ClientSession?, s: seq<ClientSession>, k: nat)
    requires k < |s| && Distinct(s)
    requires head == At(s, if k == 0 then 1 else 0)
    requires forall i {:trigger s[i].next} ::
               0 <= i < |s| && i != k ==> s[i].next == At(s, if i == k - 1 then k + 1 else i + 1)
    requires forall i {:trigger s[i].prev} ::
               0 <= i < |s| && i != k ==> s[i].prev == At(s, if i == k + 1 then k - 1 else i - 1)
    ensures Linked(head, Without(s, k))
  {
    var r := Without(s, k);
    WithoutDistinct(s, k);
    WithoutAt(s, k, 0);
    forall i | 0 <= i < |r|
      ensures r[i].prev == At(r, i - 1) && r[i].next == At(r, i + 1)
    {
      WithoutAt(s, k, i - 1);
      WithoutAt(s, k, i);
      WithoutAt(s, k, i + 1);
    }
  }

  /** The sessions of `s` that are not in `dead`, in the same order. */
  function Survivors(s: seq<ClientSession>, dead: set<ClientSession>): seq<ClientSession> {
    if s == [] then []
    else Survivors(s[..|s| - 1], dead) + (if s[|s| - 1] in dead then [] else [s[|s| - 1]])
  }

  /** The socket descriptors of some sessions. */
  function SocketsOf(s: seq<ClientSession>): set<int>
  {
    set t | t in s :: t.socketFd
  }

  function SocketsOfSet(s: set<ClientSession>): set<int> {
    set t | t in s :: t.socketFd
  }

  predicate Differ(s: seq<ClientSession>, i: nat, j: nat)
    requires i < |s| && j < |s|
  {
    s[i].socketFd != s[j].socketFd
  }

  /** Sockets are in the range of the queue table and no two sessions share one. */
  predicate ProperSockets(s: seq<ClientSession>)
  {
    && (forall i {:trigger s[i].socketFd} :: 0 <= i < |s| ==> 0 <= s[i].socketFd < MAX_FD_COUNT)
    && (forall i, j {:trigger Differ(s, i, j)} :: 0 <= i < j < |s| ==> Differ(s, i, j))
  }

  /** So the list never holds a session twice. */
  lemma ProperIsDistinct(s: seq<ClientSession>)
    requires ProperSockets(s)
    ensures Distinct(s)
  {
    forall i, j | 0 <= i < j < |s|
      ensures s[i] != s[j]
    {
      assert Differ(s, i, j);
    }
  }

  lemma OwnerIsUnique(s: seq<ClientSession>, i: nat)
    requires ProperSockets(s) && i < |s|
    ensures forall t :: t in s && t.socketFd == s[i].socketFd ==> t == s[i]
  {
    forall t | t in s && t != s[i]
      ensures t.socketFd != s[i].socketFd
    {
      var j :| 0 <= j < |s| && s[j] == t;
      assert if i < j then Differ(s, i, j) else Differ(s, j, i);
    }
  }

  lemma SocketsAfterAdd(t: ClientSession, s: seq<ClientSession>)
    requires ProperSockets(s) && 0 <= t.socketFd < MAX_FD_COUNT && t.socketFd !in SocketsOf(s)
    ensures ProperSockets([t] + s) && SocketsOf([t] + s) == SocketsOf(s) + {t.socketFd}
  {
    assert forall u :: u in [t] + s <==> u == t || u in s;
    assert forall i :: 0 <= i < |s| ==> s[i].socketFd in SocketsOf(s);
    var all := [t] + s;
    forall i, j | 0 <= i < j < |all|
      ensures Differ(all, i, j)
    {
      assert all[j] == s[j - 1];
      if i > 0 {
        assert all[i] == s[i - 1] && Differ(s, i - 1, j - 1);
      }
    }
  }

  lemma SocketsAfterRemove(s: seq<ClientSession>, k: nat)
    requires k < |s| && ProperSockets(s)
    ensures ProperSockets(Without(s, k)) && SocketsOf(Without(s, k)) == SocketsOf(s) - {s[k].socketFd}
  {
    var r := Without(s, k);
    ProperIsDistinct(s);
    WithoutDistinct(s, k);
    forall i | 0 <= i < |r|
      ensures r[i] == s[if i < k then i else i + 1] && r[i].socketFd != s[k].socketFd
    {
      assert if i < k then Differ(s, i, k) else Differ(s, k, i + 1);
    }
    forall i, j | 0 <= i < j < |r|
      ensures Differ(r, i, j)
    {
      assert Differ(s, if i < k then i else i + 1, if j < k then j else j + 1);
    }
  }

  /** The list in the middle of a walk: those already kept, the one visited, and those ahead. */
  function Around(kept: seq<ClientSession>, t: ClientSession, ahead: seq<ClientSession>): seq<ClientSession> {
    kept + [t] + ahead
  }

  lemma AroundWithout(kept: seq<ClientSession>, t: ClientSession, ahead: seq<ClientSession>)
    ensures var here, k := Around(kept, t, ahead), |kept|;
            k < |here| && here[k] == t && At(here, k + 1) == At(ahead, 0) && Without(here, k) == kept + ahead
  {
  }

  /** The walk moves on by one, and the visited session is kept unless it is dead. */
  lemma WalkStep(visited: seq<ClientSession>, ahead: seq<ClientSession>, kept: seq<ClientSession>,
                 dead: set<ClientSession>)
    requires ahead != [] && kept == Survivors(visited, dead)
    ensures var t, rest := ahead[0], ahead[1..];
            && visited + ahead == visited + [t] + rest && t in visited + ahead
            && kept + ahead == Around(kept, t, rest) && At(ahead, 0) == t
            && Survivors(visited + [t], dead) == (if t in dead then kept else kept + [t])
            && Around(kept, t, rest) == kept + [t] + rest
  {
    var t := ahead[0];
    assert ahead == [t] + ahead[1..];
    assert (visited + [t])[..|visited|] == visited;
  }

  lemma WalkStarts(all: seq<ClientSession>, dead: set<ClientSession>)
    ensures [] + all == all && Survivors([], dead) == []
  {
  }

  lemma WalkEnds(visited: seq<ClientSession>, kept: seq<ClientSession>)
    ensures visited + [] == visited && kept + [] == kept
  {
  }

  /** Exactly the sessions that are not dead survive. */
  lemma {:induction false} SurvivorsIff(s: seq<ClientSession>, dead: set<ClientSession>)
    ensures forall t :: t in Survivors(s, dead) <==> t in s && t !in dead
  {
    if s == [] {
    } else {
      SurvivorsIff(s[..|s| - 1], dead);
      assert s == s[..|s| - 1] + [s[|s| - 1]];
    }
  }

  lemma {:induction false} SurvivorIsListed(s: seq<ClientSession>, dead: set<ClientSession>, t: ClientSession)
    requires t in Survivors(s, dead)
    ensures t in s && t !in dead
  {
    if s == [] {
    } else if t in Survivors(s[..|s| - 1], dead) {
      SurvivorIsListed(s[..|s| - 1], dead, t);
    }
  }

  /** No survivor has the socket of a dead session. */
  lemma SurvivorsKeepSockets(s: seq<ClientSession>, dead: set<ClientSession>)
    requires ProperSockets(s) && dead <= Members(s)
    ensures SocketsOf(Survivors(s, dead)) !! SocketsOfSet(dead)
    ensures forall fd :: fd in SocketsOf(Survivors(s, dead)) ==> 0 <= fd < MAX_FD_COUNT
  {
    forall t | t in Survivors(s, dead)
      ensures 0 <= t.socketFd < MAX_FD_COUNT && t.socketFd !in SocketsOfSet(dead)
    {
      SurvivorIsListed(s, dead, t);
      var i :| 0 <= i < |s| && s[i] == t;
      forall d | d in dead
        ensures d.socketFd != t.socketFd
      {
        var j :| 0 <= j < |s| && s[j] == d;
        assert i < j ==> Differ(s, i, j);
        assert j < i ==> Differ(s, j, i);
      }
    }
  }

  /** The sessions whose child is among the processes that have exited. */
  ghost function DeadOf(s: seq<ClientSession>, exited: set<int>): set<ClientSession>
    reads s`pid
  {
    set t | t in s && t.pid > 0 && t.pid in exited
  }

  /** What the registry knows of a session: its socket and its child, if it has one. */
  datatype Entry = Entry(fd: int, pid: int)

  ghost function Entries(s: seq<ClientSession>): (f: seq<Entry>)
    reads s`pid
    ensures |f| == |s|
    ensures forall i :: 0 <= i < |s| ==> f[i] == Entry(s[i].socketFd, s[i].pid)
  {
    if s == [] then [] else Entries(s[..|s| - 1]) + [Entry(s[|s| - 1].socketFd, s[|s| - 1].pid)]
  }

  // ---------- what ending sessions does ----------

  /** The child and the pseudo-terminal of a session. */
  datatype Profile = Profile(pid: int, pty: int)

  /** Whose child has exited, in terms of the profiles. */
  function DeadIn(s: seq<ClientSession>, profiles: map<ClientSession, Profile>, exited: set<int>): set<ClientSession> {
    set t | t in s && t in profiles && profiles[t].pid > 0 && profiles[t].pid in exited
  }

  ghost function Profiles(s: seq<ClientSession>): map<ClientSession, Profile>
    reads s`pid, s`ptyMasterFd
  {
    map t | t in s :: Profile(t.pid, t.ptyMasterFd)
  }

  ghost function Files(s: seq<ClientSession>): map<ClientSession, File>
    reads s`fileFd
  {
    map t | t in s :: t.fileFd
  }

  /** The sessions are as the profiles say, and those of `gone` have their file closed. */
  ghost predicate Stand(s: seq<ClientSession>, profiles: map<ClientSession, Profile>,
                        files: map<ClientSession, File>, gone: set<ClientSession>)
    reads s`pid, s`ptyMasterFd, s`fileFd
  {
    && (forall t :: t in s ==> t in profiles && profiles[t] == Profile(t.pid, t.ptyMasterFd))
    && (forall t :: t in s ==> t in files && t.fileFd == if t in gone then Closed else files[t])
  }

  lemma StandingTells(s: seq<ClientSession>, profiles: map<ClientSession, Profile>, files: map<ClientSession, File>,
                      gone: set<ClientSession>, exited: set<int>, f: seq<Entry>)
    requires Stand(s, profiles, files, gone)
    requires |f| == |s|
    requires forall i :: 0 <= i < |s| ==> s[i] in profiles && f[i] == Entry(s[i].socketFd, profiles[s[i]].pid)
    ensures DeadOf(s, exited) == DeadIn(s, profiles, exited) && Entries(s) == f
  {
  }

  /**
   Everything but the sessions: the table, what its queues hold, the descriptors closed besides the files,
   the processes killed, and the bytes that reached each socket.
   */
  datatype Effects = Effects(slots: seq<MessageQueue?>, rings: seq<Option<Tx>>,
                             closed: set<int>, killed: set<int>, written: map<int, seq<Byte>>)

  /** The descriptors of a session besides its file: the socket and, if it is open, the pseudo-terminal. */
  function Handles(fd: int, pty: int): (h: set<int>)
    ensures forall i :: i in h <==> i == fd || (i >= 0 && i == pty)
  {
    {fd} + (if pty >= 0 then {pty} else {})
  }

  function Farewell(rings: seq<Option<Tx>>, fd: int, lastWrite: int): seq<Byte> {
    if 0 <= fd < |rings| && rings[fd].Some? && rings[fd].value.Valid() then LastFlush(rings[fd].value, lastWrite)
    else []
  }

  function Ended(e: Effects, t: ClientSession, p: Profile, lastWrite: int): Effects {
    Effects(Put(e.slots, t.socketFd, null), Put(e.rings, t.socketFd, None),
            e.closed + Handles(t.socketFd, p.pty), e.killed + (if p.pid > 0 then {p.pid} else {}),
            e.written[t.socketFd := Farewell(e.rings, t.socketFd, lastWrite)])
  }

  /** The step from `e` to `e'` closes, kills and writes this. */
  ghost predicate Adds(e: Effects, e': Effects, closed: set<int>, killed: set<int>, written: map<int, seq<Byte>>) {
    e'.closed == e.closed + closed && e'.killed == e.killed + killed && e'.written == e.written + written
  }

  lemma EndingAdds(e: Effects, t: ClientSession, p: Profile, lastWrite: int, written: map<int, seq<Byte>>)
    requires p.pid > 0 && written == map[t.socketFd := Farewell(e.rings, t.socketFd, lastWrite)]
    ensures Adds(e, Ended(e, t, p, lastWrite), Handles(t.socketFd, p.pty), {p.pid}, written)
  {
  }

  lemma NothingAdds(e: Effects)
    ensures Adds(e, e, {}, {}, map[])
  {
  }

  /** The dead among some sessions are ended one after another. */
  function AllEnded(e: Effects, s: seq<ClientSession>, dead: set<ClientSession>,
                    profiles: map<ClientSession, Profile>, lastWrites: int -> int): Effects
    requires forall t :: t in s ==> t in profiles
  {
    if s == [] then e
    else
      var t := s[|s| - 1];
      var before := AllEnded(e, s[..|s| - 1], dead, profiles, lastWrites);
      if t in dead then Ended(before, t, profiles[t], lastWrites(t.socketFd)) else before
  }

  /** The sessions of `s` that are dead. */
  function Gone(s: seq<ClientSession>, dead: set<ClientSession>): set<ClientSession> {
    set t | t in s && t in dead
  }

  function HandlesOf(g: set<ClientSession>, profiles: map<ClientSession, Profile>): set<int> {
    set t, fd | t in g && t in profiles && fd in Handles(t.socketFd, profiles[t].pty) :: fd
  }

  function PidsOf(g: set<ClientSession>, profiles: map<ClientSession, Profile>): set<int> {
    set t | t in g && t in profiles && profiles[t].pid > 0 :: profiles[t].pid
  }

  lemma GoneStep(s: seq<ClientSession>, dead: set<ClientSession>, profiles: map<ClientSession, Profile>)
    requires s != [] && forall t :: t in s ==> t in profiles
    ensures var n := |s| - 1;
            var g, g' := Gone(s[..n], dead), Gone(s, dead);
            if s[n] in dead then
              && g' == g + {s[n]}
              && SocketsOfSet(g') == SocketsOfSet(g) + {s[n].socketFd}
              && HandlesOf(g', profiles) == HandlesOf(g, profiles) + Handles(s[n].socketFd, profiles[s[n]].pty)
              && PidsOf(g', profiles) ==
                 PidsOf(g, profiles) + (if profiles[s[n]].pid > 0 then {profiles[s[n]].pid} else {})
            else g' == g
  {
    var n := |s| - 1;
    assert s == s[..n] + [s[n]];
    var g, g' := Gone(s[..n], dead), Gone(s, dead);
    if s[n] in dead {
      assert g' == g + {s[n]};
    } else {
      assert g' == g;
    }
  }

  /** Exactly the descriptors and children of the dead go, and their queues with them. */
  lemma {:induction false} EndedSets(e: Effects, s: seq<ClientSession>, dead: set<ClientSession>,
                                     profiles: map<ClientSession, Profile>, lastWrites: int -> int)
    requires forall t :: t in s ==> t in profiles
    ensures var r, g := AllEnded(e, s, dead, profiles, lastWrites), Gone(s, dead);
            && r.closed == e.closed + HandlesOf(g, profiles) && r.killed == e.killed + PidsOf(g, profiles)
            && r.written.Keys == e.written.Keys + SocketsOfSet(g)
  {
    if s == [] {
    } else {
      GoneStep(s, dead, profiles);
      EndedSets(e, s[..|s| - 1], dead, profiles, lastWrites);
    }
  }

  /** Exactly their entries of the table are emptied. */
  lemma {:induction false} EndedSlots(e: Effects, s: seq<ClientSession>, dead: set<ClientSession>,
                                      profiles: map<ClientSession, Profile>, lastWrites: int -> int)
    requires forall t :: t in s ==> t in profiles
    ensures var r, g := AllEnded(e, s, dead, profiles, lastWrites), Gone(s, dead);
            && |r.slots| == |e.slots| && |r.rings| == |e.rings|
            && (forall fd :: 0 <= fd < |e.slots| ==>
                  r.slots[fd] == if fd in SocketsOfSet(g) then null else e.slots[fd])
            && (forall fd :: 0 <= fd < |e.rings| ==>
                  r.rings[fd] == if fd in SocketsOfSet(g) then None else e.rings[fd])
  {
    if s == [] {
    } else {
      GoneStep(s, dead, profiles);
      EndedSlots(e, s[..|s| - 1], dead, profiles, lastWrites);
    }
  }

  /** What reached a socket is one flush of what its queue held before, with the last message appended. */
  lemma {:induction false} EndedWords(e: Effects, s: seq<ClientSession>, dead: set<ClientSession>,
                                      profiles: map<ClientSession, Profile>, lastWrites: int -> int)
    requires ProperSockets(s) && forall t :: t in s ==> t in profiles
    ensures var r := AllEnded(e, s, dead, profiles, lastWrites);
            forall t :: t in Gone(s, dead) ==>
              && t.socketFd in r.written
              && r.written[t.socketFd] == Farewell(e.rings, t.socketFd, lastWrites(t.socketFd))
  {
    if s == [] {
    } else {
      var n := |s| - 1;
      ProperFront(s);
      GoneStep(s, dead, profiles);
      EndedWords(e, s[..n], dead, profiles, lastWrites);
      EndedSlots(e, s[..n], dead, profiles, lastWrites);
      LastSocketIsNew(s);
      assert forall t :: t in Gone(s[..n], dead) ==> t in s[..n];
    }
  }

  /** From a state in which nothing was closed, killed or written yet. */
  lemma EndedTells(e: Effects, s: seq<ClientSession>, dead: set<ClientSession>,
                   profiles: map<ClientSession, Profile>, lastWrites: int -> int)
    requires ProperSockets(s) && dead <= Members(s) && forall t :: t in s ==> t in profiles
    requires e.closed == {} && e.killed == {} && e.written == map[]
    ensures var r := AllEnded(e, s, dead, profiles, lastWrites);
            && Gone(s, dead) == dead
            && |r.slots| == |e.slots| && |r.rings| == |e.rings|
            && (forall fd :: 0 <= fd < |e.slots| && fd !in SocketsOfSet(dead) ==> r.slots[fd] == e.slots[fd])
            && (forall fd :: 0 <= fd < |e.rings| && fd !in SocketsOfSet(dead) ==> r.rings[fd] == e.rings[fd])
            && r.closed == HandlesOf(dead, profiles) && r.killed == PidsOf(dead, profiles)
            && r.written.Keys == SocketsOfSet(dead)
            && (forall t :: t in dead ==>
                  && t.socketFd in r.written
                  && r.written[t.socketFd] == Farewell(e.rings, t.socketFd, lastWrites(t.socketFd)))
  {
    assert Gone(s, dead) == dead;
    EndedSlots(e, s, dead, profiles, lastWrites);
    EndedSets(e, s, dead, profiles, lastWrites);
    EndedWords(e, s, dead, profiles, lastWrites);
  }

  /** What was closed and killed, in terms of the sessions themselves. */
  lemma HandlesAndPids(s: seq<ClientSession>, dead: set<ClientSession>, profiles: map<ClientSession, Profile>,
                       files: map<ClientSession, File>, gone: set<ClientSession>, exited: set<int>)
    requires Stand(s, profiles, files, gone) && dead == DeadIn(s, profiles, exited)
    ensures forall fd :: fd in HandlesOf(dead, profiles) <==> exists t :: t in dead && Holds(t, fd)
    ensures forall pid :: pid in PidsOf(dead, profiles) <==> exists t :: t in dead && pid == t.pid
  {
    forall fd
      ensures fd in HandlesOf(dead, profiles) <==> exists t :: t in dead && Holds(t, fd)
    {
      if fd in HandlesOf(dead, profiles) {
        var t :| t in dead && t in profiles && fd in Handles(t.socketFd, profiles[t].pty);
        assert Holds(t, fd);
      }
      if t :| t in dead && Holds(t, fd) {
        assert t in s && fd in Handles(t.socketFd, profiles[t].pty);
      }
    }
  }

  lemma EndOneMore(e: Effects, s: seq<ClientSession>, t: ClientSession, dead: set<ClientSession>,
                   profiles: map<ClientSession, Profile>, lastWrites: int -> int)
    requires t in profiles && forall u :: u in s ==> u in profiles
    ensures (forall u :: u in s + [t] ==> u in profiles)
    ensures AllEnded(e, s + [t], dead, profiles, lastWrites) ==
            var before := AllEnded(e, s, dead, profiles, lastWrites);
            if t in dead then Ended(before, t, profiles[t], lastWrites(t.socketFd)) else before
    ensures Gone(s + [t], dead) == if t in dead then Gone(s, dead) + {t} else Gone(s, dead)
  {
    assert (s + [t])[..|s|] == s;
    assert forall u :: u in s + [t] <==> u in s || u == t;
  }

  lemma ProperFront(s: seq<ClientSession>)
    requires ProperSockets(s) && s != []
    ensures ProperSockets(s[..|s| - 1])
  {
    var front := s[..|s| - 1];
    forall i, j | 0 <= i < j < |front|
      ensures Differ(front, i, j)
    {
      assert Differ(s, i, j);
    }
  }

  lemma LastSocketIsNew(s: seq<ClientSession>)
    requires ProperSockets(s) && s != []
    ensures forall t :: t in s[..|s| - 1] ==> t.socketFd != s[|s| - 1].socketFd
  {
    forall t | t in s[..|s| - 1]
      ensures t.socketFd != s[|s| - 1].socketFd
    {
      var i :| 0 <= i < |s| - 1 && s[i] == t;
      assert Differ(s, i, |s| - 1);
    }
  }

  /** The descriptor is the session's socket or its open pseudo-terminal. */
  ghost predicate Holds(t: ClientSession, fd: int)
    reads t`ptyMasterFd
  {
    fd == t.socketFd || (fd >= 0 && fd == t.ptyMasterFd)
  }

  ghost function Watched(s: seq<ClientSession>): set<int>
    reads s`ptyMasterFd
  {
    if s == [] then {}
    else
      var t := s[|s| - 1];
      Watched(s[..|s| - 1]) + {t.socketFd} + (if t.ptyMasterFd >= 0 then {t.ptyMasterFd} else {})
  }

  /** Membership: every socket, every pseudo-terminal that is open, and nothing else. */
  lemma {:induction false} WatchedIff(s: seq<ClientSession>, fd: int)
    ensures fd in Watched(s) <==> exists t :: t in s && Holds(t, fd)
  {
    if s == [] {
    } else {
      var front, last := s[..|s| - 1], s[|s| - 1];
      WatchedIff(front, fd);
      assert s == front + [last];
      if t :| t in front && Holds(t, fd) {
        assert t in s;
      }
      assert Holds(last, fd) ==> last in s;
      assert fd in Watched(s) <==> fd in Watched(front) || Holds(last, fd);
    }
  }

  class Registry {
    var head: ClientSession?
    var sessionCount: int
    const table: QueueTable
    ghost var sessions: seq<ClientSession>

    ghost predicate Valid()
      reads this, sessions, table, table.queues, table.owned
    {
      && Linked(head, sessions)
      && sessionCount == |sessions|
      && table.Valid()
      && ProperSockets(sessions)
      && table.Occupied() == SocketsOf(sessions)
    }

    /** The queue of a session in the list. */
    ghost function QueueOf(session: ClientSession): (q: MessageQueue)
      requires Valid() && session in sessions
      reads this, sessions, table, table.queues, table.owned
      ensures q in table.owned && q.txBuffer in table.buffers && q.Valid()
      ensures 0 <= session.socketFd < MAX_FD_COUNT && q == table.queues[session.socketFd]
    {
      assert session.socketFd in SocketsOf(sessions);
      table.queues[session.socketFd]
    }

    constructor ()
      ensures Valid() && sessions == [] && fresh(table.queues)
      ensures fresh(table) && table.owned == {} && table.buffers == {}
    {
      table := new QueueTable();
      head, sessionCount, sessions := null, 0, [];
    }

    method AddToList(session: ClientSession)
      requires Linked(head, sessions) && Distinct(sessions) && sessionCount == |sessions| && session !in sessions
      modifies `head, `sessionCount, `sessions, session`prev, session`next, Members(sessions)`prev
      ensures Linked(head, sessions) && sessionCount == |sessions|
      ensures sessions == [session] + old(sessions)
    {
      session.next := head;
      session.prev := null;
      if head != null {
        head.prev := session;
      }
      head := session;
      sessionCount := sessionCount + 1;
      sessions := [session] + sessions;
    }

    method RemoveFromList(session: ClientSession, ghost k: nat)
      requires Linked(head, sessions) && Distinct(sessions) && sessionCount == |sessions|
      requires k < |sessions| && sessions[k] == session
      modifies `head, `sessionCount, `sessions, Members(sessions)`prev, Members(sessions)`next
      ensures Linked(head, sessions) && sessionCount == |sessions|
      ensures sessions == Without(old(sessions), k)
    {
      if session.prev != null {
        session.prev.next := session.next;
      } else {
        head := session.next;
      }
      if session.next != null {
        session.next.prev := session.prev;
      }
      sessionCount := sessionCount - 1;
      LinkedAround(head, sessions, k);
      sessions := Without(sessions, k);
    }

    /** Links in a session whose queue is already in the table. */
    method Enroll(session: ClientSession)
      requires Linked(head, sessions) && sessionCount == |sessions| && session !in sessions
      requires ProperSockets(sessions) && table.Valid()
      requires 0 <= session.socketFd < MAX_FD_COUNT && session.socketFd !in SocketsOf(sessions)
      requires table.Occupied() == SocketsOf(sessions) + {session.socketFd}
      modifies `head, `sessionCount, `sessions, session`prev, session`next, Members(sessions)`prev
      ensures Valid() && sessions == [session] + old(sessions)
    {
      ProperIsDistinct(sessions);
      SocketsAfterAdd(session, sessions);
      AddToList(session);
    }

    /** Gives a record its queue and links it in, if a queue can be had. */
    method Register(session: ClientSession, memory: bool) returns (ok: bool)
      requires Valid() && session !in sessions && session.socketFd >= 0
      modifies `head, `sessionCount, `sessions, session`prev, session`next, Members(sessions)`prev
      modifies table.queues, table`owned, table`buffers
      ensures Valid() && fresh(table.owned - old(table.owned)) && fresh(table.buffers - old(table.buffers))
      ensures ok <==> memory && session.socketFd < MAX_FD_COUNT && session.socketFd !in old(SocketsOf(sessions))
      ensures sessions == if ok then [session] + old(sessions) else old(sessions)
      ensures forall fd :: 0 <= fd < MAX_FD_COUNT && (ok ==> fd != session.socketFd) ==>
                table.queues[fd] == old(table.queues[fd])
    {
      ok := table.Init(session.socketFd, memory);
      if ok {
        Enroll(session);
      }
    }

    /** The two flags tell whether calloc() succeeds for the record and for its queue. */
    method CreateSession(socketFd: nat, memory: bool, queueMemory: bool) returns (session: ClientSession?)
      requires Valid()
      modifies `head, `sessionCount, `sessions, Members(sessions)`prev, table.queues, table`owned, table`buffers
      ensures Valid() && fresh(table.owned - old(table.owned)) && fresh(table.buffers - old(table.buffers))
      ensures session == null <==>
              || !memory || !queueMemory
              || socketFd >= MAX_FD_COUNT || socketFd in old(SocketsOf(sessions))
      ensures session == null ==> sessions == old(sessions)
      ensures session != null ==>
                && fresh(session) && sessions == [session] + old(sessions)
                && session.socketFd == socketFd && session.View() == NewSession() && session.pid == -1
      ensures forall fd :: 0 <= fd < MAX_FD_COUNT && (session != null ==> fd != socketFd) ==>
                table.queues[fd] == old(table.queues[fd])
    {
      if !memory {
        return null;
      }
      var s := new ClientSession(socketFd);
      var ok := Register(s, queueMemory);
      session := if ok then s else null;
    }

    /** The unique session with this socket, or none. */
    method FindSessionBySocket(socketFd: int) returns (session: ClientSession?)
      requires Valid()
      ensures session == null <==> socketFd !in SocketsOf(sessions)
      ensures session != null ==> session in sessions && session.socketFd == socketFd
      ensures session != null ==> forall s :: s in sessions && s.socketFd == socketFd ==> s == session
    {
      session := head;
      ghost var i := 0;
      while session != null
        invariant 0 <= i <= |sessions| && session == At(sessions, i)
        invariant forall j :: 0 <= j < i ==> sessions[j].socketFd != socketFd
        decreases |sessions| - i
      {
        if session.socketFd == socketFd {
          OwnerIsUnique(sessions, i);
          return;
        }
        session := session.next;
        i := i + 1;
      }
    }

    /** Unlinks a session whose queue is no longer in the table. */
    method Dismiss(session: ClientSession, ghost k: nat)
      requires Linked(head, sessions) && sessionCount == |sessions|
      requires ProperSockets(sessions) && table.Valid()
      requires k < |sessions| && sessions[k] == session
      requires table.Occupied() == SocketsOf(sessions) - {session.socketFd}
      modifies `head, `sessionCount, `sessions, Members(sessions)`prev, Members(sessions)`next
      ensures Valid() && sessions == Without(old(sessions), k)
      ensures table.Slots() == old(table.Slots()) && table.Rings() == old(table.Rings())
    {
      ProperIsDistinct(sessions);
      SocketsAfterRemove(sessions, k);
      RemoveFromList(session, k);
    }

    /** The last message of a session and one flush, while its queue is still in the table. */
    method SayGoodbye(session: ClientSession, lastWrite: int) returns (written: seq<Byte>)
      requires Valid() && session in sessions
      modifies session`fileFd, QueueOf(session), QueueOf(session).txBuffer
      ensures Valid() && session.fileFd == Closed
      ensures written == LastFlush(old(QueueOf(session).Ring()), lastWrite)
      ensures Put(table.Rings(), session.socketFd, None) == Put(old(table.Rings()), session.socketFd, None)
    {
      ghost var q := QueueOf(session);
      written := FlushLast(table, session.socketFd, session, lastWrite);
    }

    /** Frees the queue of a descriptor; what the others hold stays queued. */
    method Release(fd: nat)
      requires table.Valid() && fd in table.Occupied()
      modifies table.queues
      ensures table.Valid() && table.Occupied() == old(table.Occupied()) - {fd}
      ensures table.Rings() == Put(old(table.Rings()), fd, None)
      ensures table.Slots() == Put(old(table.Slots()), fd, null)
    {
      var _ := table.Destroy(fd);
      assert fd !in table.Occupied();
    }

    /** The last message, one flush, and the session's queue is gone. */
    method Silence(session: ClientSession, lastWrite: int) returns (written: seq<Byte>)
      requires Valid() && session in sessions
      modifies session`fileFd, table.queues, QueueOf(session), QueueOf(session).txBuffer
      ensures Linked(head, sessions) && sessionCount == |sessions| && ProperSockets(sessions)
      ensures table.Valid() && table.Occupied() == SocketsOf(sessions) - {session.socketFd}
      ensures session.fileFd == Closed
      ensures written == LastFlush(old(QueueOf(session).Ring()), lastWrite)
      ensures table.Rings() == Put(old(table.Rings()), session.socketFd, None)
      ensures table.Slots() == Put(old(table.Slots()), session.socketFd, null)
    {
      ghost var q := QueueOf(session);
      written := SayGoodbye(session, lastWrite);
      Release(session.socketFd);
    }

    /** The pseudo-terminal and the socket are closed and the child is killed. */
    method LetGo(session: ClientSession) returns (closed: set<int>, killed: set<int>)
      ensures closed == Handles(session.socketFd, session.ptyMasterFd)
      ensures killed == if session.pid > 0 then {session.pid} else {}
    {
      closed, killed := {}, {};
      if session.ptyMasterFd >= 0 {
        closed := {session.ptyMasterFd};
      }
      if session.pid > 0 {
        killed := {session.pid};
      }
      closed := closed + {session.socketFd};
    }

    /** The session's queue goes, then the session itself. */
    method Remove(session: ClientSession, ghost k: nat, lastWrite: int) returns (written: seq<Byte>)
      requires Valid() && k < |sessions| && sessions[k] == session
      modifies `head, `sessionCount, `sessions, Members(sessions)`prev, Members(sessions)`next, session`fileFd
      modifies table.queues, QueueOf(session), QueueOf(session).txBuffer
      ensures Valid() && sessions == Without(old(sessions), k) && session.fileFd == Closed
      ensures table.Slots() == Put(old(table.Slots()), session.socketFd, null)
      ensures written == LastFlush(old(QueueOf(session).Ring()), lastWrite)
      ensures table.Rings() == Put(old(table.Rings()), session.socketFd, None)
    {
      written := Silence(session, lastWrite);
      Dismiss(session, k);
    }

    /**
     Sends the last message, flushes once, frees the session's queue and unlinks the session; `k` is its
     place in the list, `lastWrite` what `write()` returns, and `written` what reached the socket.  The
     other results are the descriptors that are closed besides the file, and the processes that are killed.
     */
    method DestroySession(session: ClientSession, ghost k: nat, lastWrite: int)
      returns (written: seq<Byte>, closed: set<int>, killed: set<int>)
      requires Valid() && k < |sessions| && sessions[k] == session
      modifies `head, `sessionCount, `sessions, Members(sessions)`prev, Members(sessions)`next, session`fileFd
      modifies table.queues, QueueOf(session), QueueOf(session).txBuffer
      ensures Valid()
      ensures sessions == Without(old(sessions), k)
      ensures table.Slots() == Put(old(table.Slots()), session.socketFd, null)
      ensures written == LastFlush(old(QueueOf(session).Ring()), lastWrite)
      ensures table.Rings() == Put(old(table.Rings()), session.socketFd, None)
      ensures session.fileFd == Closed
      ensures closed == Handles(session.socketFd, session.ptyMasterFd)
      ensures killed == if session.pid > 0 then {session.pid} else {}
    {
      written := Remove(session, k, lastWrite);
      closed, killed := LetGo(session);
    }

    /** A session whose child has exited is destroyed. */
    method Reap(session: ClientSession, lastWrite: int,
                ghost queue: MessageQueue, ghost kept: seq<ClientSession>, ghost ahead: seq<ClientSession>)
      returns (closed: set<int>, killed: set<int>, written: map<int, seq<Byte>>)
      requires Valid() && sessions == Around(kept, session, ahead)
      requires session in sessions && queue == QueueOf(session) && session.pid > 0
      modifies `head, `sessionCount, `sessions, Members(sessions)`prev, Members(sessions)`next, session`fileFd
      modifies table.queues, queue, queue.txBuffer
      ensures Valid() && sessions == kept + ahead && session.fileFd == Closed
      ensures table.Slots() == Put(old(table.Slots()), session.socketFd, null)
      ensures table.Rings() == Put(old(table.Rings()), session.socketFd, None)
      ensures written == map[session.socketFd := LastFlush(old(queue.Ring()), lastWrite)]
      ensures closed == Handles(session.socketFd, session.ptyMasterFd) && killed == {session.pid}
    {
      AroundWithout(kept, session, ahead);
      var last;
      last, closed, killed := DestroySession(session, |kept|, lastWrite);
      written := map[session.socketFd := last];
    }

    /** The table is as `e` says. */
    ghost predicate Agrees(e: Effects)
      reads table, table.queues, table.owned, table.buffers
    {
      table.Valid() && e.slots == table.Slots() && e.rings == table.Rings()
    }

    /** The same, in terms of what was so before. */
    method ReapOne(session: ClientSession, lastWrite: int,
                   ghost queue: MessageQueue, ghost kept: seq<ClientSession>, ghost ahead: seq<ClientSession>,
                   ghost e: Effects, ghost e': Effects)
      returns (closed: set<int>, killed: set<int>, written: map<int, seq<Byte>>)
      requires Valid() && sessions == Around(kept, session, ahead)
      requires session in sessions && queue == QueueOf(session) && session.pid > 0
      requires Agrees(e)
      requires e' == Ended(e, session, Profile(session.pid, session.ptyMasterFd), lastWrite)
      modifies `head, `sessionCount, `sessions, Members(sessions)`prev, Members(sessions)`next, session`fileFd
      modifies table.queues, queue, queue.txBuffer
      ensures Valid() && sessions == kept + ahead && session.fileFd == Closed
      ensures Agrees(e') && Adds(e, e', closed, killed, written)
    {
      ghost var p := Profile(session.pid, session.ptyMasterFd);
      EndingAdds(e, session, p, lastWrite, map[session.socketFd := Farewell(e.rings, session.socketFd, lastWrite)]);
      closed, killed, written := Reap(session, lastWrite, queue, kept, ahead);
    }

    /**
     One step of the walk: the next session is read off before this one may be destroyed.  The results
     besides it are the descriptors closed, the processes killed and what reached the socket.
     */
    method VisitForReaping(session: ClientSession, exited: set<int>, lastWrite: int,
                           ghost queue: MessageQueue, ghost kept: seq<ClientSession>, ghost ahead: seq<ClientSession>,
                           ghost dies: bool, ghost e: Effects, ghost e': Effects)
      returns (nextSession: ClientSession?, closed: set<int>, killed: set<int>, written: map<int, seq<Byte>>)
      requires Valid() && sessions == Around(kept, session, ahead)
      requires session in sessions && queue == QueueOf(session) && Agrees(e)
      requires dies <==> session.pid > 0 && session.pid in exited
      requires e' == if dies then Ended(e, session, Profile(session.pid, session.ptyMasterFd), lastWrite) else e
      modifies `head, `sessionCount, `sessions, Members(sessions)`prev, Members(sessions)`next, session`fileFd
      modifies table.queues, queue, queue.txBuffer
      ensures Valid() && nextSession == At(ahead, 0) && Members(sessions) <= old(Members(sessions))
      ensures sessions == if dies then kept + ahead else old(sessions)
      ensures session.fileFd == if dies then Closed else old(session.fileFd)
      ensures Agrees(e') && Adds(e, e', closed, killed, written)
    {
      AroundWithout(kept, session, ahead);
      NothingAdds(e);
      nextSession := session.next;
      closed, killed, written := {}, {}, map[];
      if session.pid > 0 {
        if session.pid in exited {
          closed, killed, written := ReapOne(session, lastWrite, queue, kept, ahead, e, e');
        }
      }
    }

    /** No visit touches a process id or a pseudo-terminal, so it makes no difference to who is dead. */
    method VisitNext(session: ClientSession, exited: set<int>, lastWrite: int,
                     ghost queue: MessageQueue, ghost kept: seq<ClientSession>, ghost ahead: seq<ClientSession>,
                     ghost dies: bool, ghost e: Effects, ghost e': Effects, ghost all: seq<ClientSession>,
                     ghost profiles: map<ClientSession, Profile>, ghost files: map<ClientSession, File>,
                     ghost gone: set<ClientSession>, ghost gone': set<ClientSession>)
      returns (nextSession: ClientSession?, closed: set<int>, killed: set<int>, written: map<int, seq<Byte>>)
      requires Valid() && sessions == Around(kept, session, ahead)
      requires session in sessions && session in all && queue == QueueOf(session)
      requires Agrees(e) && Stand(all, profiles, files, gone)
      requires var p := profiles[session];
               && (dies <==> p.pid > 0 && p.pid in exited)
               && e' == (if dies then Ended(e, session, p, lastWrite) else e)
               && gone' == if dies then gone + {session} else gone
      modifies `head, `sessionCount, `sessions, Members(sessions)`prev, Members(sessions)`next, session`fileFd
      modifies table.queues, queue, queue.txBuffer
      ensures Valid() && nextSession == At(ahead, 0) && Members(sessions) <= old(Members(sessions))
      ensures sessions == if dies then kept + ahead else old(sessions)
      ensures Agrees(e') && Adds(e, e', closed, killed, written) && Stand(all, profiles, files, gone')
    {
      nextSession, closed, killed, written :=
        VisitForReaping(session, exited, lastWrite, queue, kept, ahead, dies, e, e');
      forall t | t in all
        ensures t in files && t.fileFd == if t in gone' then Closed else files[t]
      {
        assert t != session ==> t.fileFd == old(t.fileFd);
      }
    }

    /** The walk itself: the list shrinks while it is walked. */
    method ReapAll(exited: set<int>, lastWrites: int -> int, ghost all: seq<ClientSession>,
                   ghost dead: set<ClientSession>, ghost profiles: map<ClientSession, Profile>,
                   ghost files: map<ClientSession, File>, ghost before: Effects)
      returns (ghost visited: seq<ClientSession>, closed: set<int>, killed: set<int>, written: map<int, seq<Byte>>,
               ghost now: Effects, ghost gone: set<ClientSession>)
      requires Valid() && sessions == all && dead == DeadIn(all, profiles, exited)
      requires Stand(all, profiles, files, {}) && Agrees(before)
      requires before.closed == {} && before.killed == {} && before.written == map[]
      modifies `head, `sessionCount, `sessions, Members(all)`prev, Members(all)`next, Members(all)`fileFd
      modifies table.queues, table.owned, table.buffers
      ensures Valid() && visited == all && sessions == Survivors(all, dead)
      ensures now == AllEnded(before, all, dead, profiles, lastWrites) && Agrees(now)
      ensures now.closed == closed && now.killed == killed && now.written == written
      ensures Stand(all, profiles, files, gone) && gone == Gone(all, dead)
    {
      var session := head;
      visited, closed, killed, written, now, gone := [], {}, {}, map[], before, {};
      ghost var kept: seq<ClientSession>, ahead := [], all;
      WalkStarts(all, dead);
      while session != null
        invariant Valid() && session == At(ahead, 0)
        invariant all == visited + ahead && sessions == kept + ahead && kept == Survivors(visited, dead)
        invariant Members(sessions) <= Members(all)
        invariant forall t :: t in visited ==> t in profiles
        invariant now == AllEnded(before, visited, dead, profiles, lastWrites) && Agrees(now)
        invariant now.closed == closed && now.killed == killed && now.written == written
        invariant Stand(all, profiles, files, gone) && gone == Gone(visited, dead)
        decreases |ahead|
      {
        WalkStep(visited, ahead, kept, dead);
        ghost var queue, here, was, wasGone := QueueOf(session), ahead[0], now, gone;
        EndOneMore(before, visited, here, dead, profiles, lastWrites);
        ahead := ahead[1..];
        now := AllEnded(before, visited + [here], dead, profiles, lastWrites);
        gone := Gone(visited + [here], dead);
        var nextSession, fds, pids, words :=
          VisitNext(session, exited, lastWrites(session.socketFd), queue, kept, ahead, here in dead, was, now,
                    all, profiles, files, wasGone, gone);
        closed, killed, written := closed + fds, killed + pids, written + words;
        kept := if here in dead then kept else kept + [here];
        visited, session := visited + [here], nextSession;
      }
      WalkEnds(visited, kept);
    }

    /** The same walk, with everything it did spelled out. */
    method ReapDead(exited: set<int>, lastWrites: int -> int, ghost all: seq<ClientSession>,
                    ghost dead: set<ClientSession>, ghost profiles: map<ClientSession, Profile>,
                    ghost files: map<ClientSession, File>, ghost before: Effects)
      returns (ghost visited: seq<ClientSession>, closed: set<int>, killed: set<int>, written: map<int, seq<Byte>>)
      requires Valid() && sessions == all && dead == DeadIn(all, profiles, exited)
      requires Stand(all, profiles, files, {}) && Agrees(before)
      requires before.closed == {} && before.killed == {} && before.written == map[]
      modifies `head, `sessionCount, `sessions, Members(all)`prev, Members(all)`next, Members(all)`fileFd
      modifies table.queues, table.owned, table.buffers
      ensures Valid() && visited == all && sessions == Survivors(all, dead) && Stand(all, profiles, files, dead)
      ensures forall fd :: 0 <= fd < MAX_FD_COUNT && fd !in SocketsOfSet(dead) ==>
                table.Slots()[fd] == before.slots[fd] && table.Rings()[fd] == before.rings[fd]
      ensures closed == HandlesOf(dead, profiles) && killed == PidsOf(dead, profiles)
      ensures written.Keys == SocketsOfSet(dead)
      ensures forall t :: t in dead ==>
                && t.socketFd in written
                && written[t.socketFd] == Farewell(before.rings, t.socketFd, lastWrites(t.socketFd))
    {
      ghost var now, gone;
      visited, closed, killed, written, now, gone :=
        ReapAll(exited, lastWrites, all, dead, profiles, files, before);
      EndedTells(before, all, dead, profiles, lastWrites);
    }

    /**
     Destroys every session whose child has exited, walking the list while it shrinks.  `exited` are
     the process ids for which waitpid() reports an exit, `lastWrites` what write() returns for the
     last flush of each socket.  Every session live at entry is visited once, in order, and exactly
     the others remain, in order, with their files, their queues and what is queued.  Of the dead every
     file, socket and pseudo-terminal is closed and every child killed, and nothing else is; each
     socket is sent one flush of its queue with the last message appended.
     */
    method CleanupDeadSessions(exited: set<int>, lastWrites: int -> int)
      returns (ghost visited: seq<ClientSession>, closed: set<int>, killed: set<int>, written: map<int, seq<Byte>>)
      requires Valid()
      modifies `head, `sessionCount, `sessions, Members(sessions)`prev, Members(sessions)`next, Members(sessions)`fileFd
      modifies table.queues, table.owned, table.buffers
      ensures Valid()
      ensures visited == old(sessions)
      ensures sessions == Survivors(old(sessions), old(DeadOf(sessions, exited)))
      ensures DeadOf(visited, exited) == old(DeadOf(sessions, exited)) && Entries(visited) == old(Entries(sessions))
      ensures forall fd :: fd in SocketsOf(sessions) ==>
                table.queues[fd] == old(table.queues[fd]) && table.RingAt(fd) == old(table.RingAt(fd))
      ensures forall t :: t in visited ==>
                t.fileFd == if t in old(DeadOf(sessions, exited)) then Closed else old(t.fileFd)
      ensures forall fd :: fd in closed <==> exists t :: t in old(DeadOf(sessions, exited)) && Holds(t, fd)
      ensures forall pid :: pid in killed <==> exists t :: t in old(DeadOf(sessions, exited)) && pid == t.pid
      ensures written.Keys == SocketsOfSet(old(DeadOf(sessions, exited)))
      ensures forall t :: t in old(DeadOf(sessions, exited)) ==>
                && t.socketFd in written
                && written[t.socketFd] == LastFlush(old(QueueOf(t).Ring()), lastWrites(t.socketFd))
    {
      ghost var all, profiles, files := sessions, Profiles(sessions), Files(sessions);
      ghost var dead, f := DeadIn(all, profiles, exited), Entries(all);
      ghost var before := Effects(table.Slots(), table.Rings(), {}, {}, map[]);
      StandingTells(all, profiles, files, {}, exited, f);
      visited, closed, killed, written := ReapDead(exited, lastWrites, all, dead, profiles, files, before);
      StandingTells(all, profiles, files, dead, exited, f);
      SurvivorsKeepSockets(all, dead);
      HandlesAndPids(all, dead, profiles, files, dead, exited);
    }

    /** The descriptors to watch: every socket and every open pseudo-terminal, on top of those given. */
    method SetupSelect(readFds: set<int>, maxFd: int) returns (readFds': set<int>, maxFd': int)
      requires Valid()
      ensures readFds' == readFds + Watched(sessions)
      ensures maxFd <= maxFd' && (forall fd :: fd in Watched(sessions) ==> fd <= maxFd')
      ensures maxFd' == maxFd || maxFd' in Watched(sessions)
    {
      var session := head;
      readFds', maxFd' := readFds, maxFd;
      ghost var i := 0;
      while session != null
        invariant 0 <= i <= |sessions| && session == At(sessions, i)
        invariant readFds' == readFds + Watched(sessions[..i])
        invariant maxFd <= maxFd' && (forall fd :: fd in Watched(sessions[..i]) ==> fd <= maxFd')
        invariant maxFd' == maxFd || maxFd' in Watched(sessions[..i])
        decreases |sessions| - i
      {
        assert sessions[..i + 1][..i] == sessions[..i];
        readFds' := readFds' + {session.socketFd};
        if session.socketFd > maxFd' {
          maxFd' := session.socketFd;
        }
        if session.ptyMasterFd >= 0 {
          readFds' := readFds' + {session.ptyMasterFd};
          if session.ptyMasterFd > maxFd' {
            maxFd' := session.ptyMasterFd;
          }
        }
        session := session.next;
        i := i + 1;
      }
      assert sessions[..|sessions|] == sessions;
    }
  }

  // ---------- runs ----------

  /**
   A connection is accepted on a descriptor, with or without memory for its record and its queue; a session
   is given a child; the session of a descriptor ends; or those whose children have exited are reaped.
   */
  datatype Event =
    | Connect(fd: nat, memory: bool, queueMemory: bool)
    | Spawn(fd: nat, pid: int)
    | Disconnect(fd: nat, lastWrite: int)
    | Reap(exited: set<int>, lastWrites: int -> int)

  predicate IsListed(f: seq<Entry>, fd: int) {
    exists i :: 0 <= i < |f| && IsAt(f, fd, i)
  }

  predicate IsAt(f: seq<Entry>, fd: int, i: nat)
    requires i < |f|
  {
    f[i].fd == fd
  }

  function Dropped(f: seq<Entry>, fd: int): seq<Entry> {
    if f == [] then [] else if f[0].fd == fd then f[1..] else [f[0]] + Dropped(f[1..], fd)
  }

  function WithChild(f: seq<Entry>, fd: int, pid: int): seq<Entry> {
    if f == [] then []
    else if f[0].fd == fd then [Entry(fd, pid)] + f[1..]
    else [f[0]] + WithChild(f[1..], fd, pid)
  }

  function Living(f: seq<Entry>, exited: set<int>): seq<Entry> {
    if f == [] then []
    else
      var last := f[|f| - 1];
      Living(f[..|f| - 1], exited) + (if last.pid > 0 && last.pid in exited then [] else [last])
  }

  function AfterEvent(f: seq<Entry>, e: Event): seq<Entry> {
    match e
    case Connect(fd, memory, queueMemory) =>
      if memory && queueMemory && fd < MAX_FD_COUNT && !IsListed(f, fd) then [Entry(fd, -1)] + f else f
    case Spawn(fd, pid) => WithChild(f, fd, pid)
    case Disconnect(fd, _) => Dropped(f, fd)
    case Reap(exited, _) => Living(f, exited)
  }

  /** The registry as a list of entries, newest first. */
  function EntriesAfter(events: seq<Event>): seq<Entry>
    decreases |events|
  {
    if events == [] then []
    else AfterEvent(EntriesAfter(events[..|events| - 1]), events[|events| - 1])
  }

  lemma {:induction false} DroppedAt(f: seq<Entry>, k: nat)
    requires k < |f| && forall i :: 0 <= i < k ==> f[i].fd != f[k].fd
    ensures Dropped(f, f[k].fd) == f[..k] + f[k + 1..]
  {
    if k == 0 {
    } else {
      DroppedAt(f[1..], k - 1);
    }
  }

  lemma {:induction false} WithChildAt(f: seq<Entry>, k: nat, pid: int)
    requires k < |f| && forall i :: 0 <= i < k ==> f[i].fd != f[k].fd
    ensures WithChild(f, f[k].fd, pid) == f[k := Entry(f[k].fd, pid)]
  {
    if k == 0 {
    } else {
      WithChildAt(f[1..], k - 1, pid);
    }
  }

  lemma {:induction false} NothingChanges(f: seq<Entry>, fd: int, pid: int)
    requires !IsListed(f, fd)
    ensures Dropped(f, fd) == f && WithChild(f, fd, pid) == f
  {
    if f == [] {
    } else {
      assert !IsAt(f, fd, 0);
      assert forall i :: 0 <= i < |f| - 1 && IsAt(f[1..], fd, i) ==> IsAt(f, fd, i + 1);
      NothingChanges(f[1..], fd, pid);
    }
  }

  predicate ProperEntries(f: seq<Entry>) {
    && (forall i :: 0 <= i < |f| ==> 0 <= f[i].fd < MAX_FD_COUNT)
    && (forall i, j :: 0 <= i < j < |f| ==> f[i].fd != f[j].fd)
  }

  lemma ConnectStaysProper(f: seq<Entry>, fd: nat, memory: bool, queueMemory: bool)
    requires ProperEntries(f)
    ensures ProperEntries(AfterEvent(f, Connect(fd, memory, queueMemory)))
  {
    assert forall i :: 0 <= i < |f| && f[i].fd == fd ==> IsAt(f, fd, i);
  }

  lemma DroppedStaysProper(f: seq<Entry>, fd: int)
    requires ProperEntries(f)
    ensures ProperEntries(Dropped(f, fd))
  {
    if k :| 0 <= k < |f| && IsAt(f, fd, k) {
      DroppedAt(f, k);
      var r := f[..k] + f[k + 1..];
      assert forall i :: 0 <= i < |r| ==> r[i] == f[if i < k then i else i + 1];
    } else {
      NothingChanges(f, fd, 0);
    }
  }

  lemma WithChildStaysProper(f: seq<Entry>, fd: int, pid: int)
    requires ProperEntries(f)
    ensures ProperEntries(WithChild(f, fd, pid))
  {
    if k :| 0 <= k < |f| && IsAt(f, fd, k) {
      WithChildAt(f, k, pid);
    } else {
      NothingChanges(f, fd, pid);
    }
  }

  lemma {:induction false} LivingStaysProper(f: seq<Entry>, exited: set<int>)
    requires ProperEntries(f)
    ensures ProperEntries(Living(f, exited))
    ensures forall e :: e in Living(f, exited) ==> e in f
  {
    if f == [] {
    } else {
      LivingStaysProper(f[..|f| - 1], exited);
      var kept := Living(f[..|f| - 1], exited);
      forall i | 0 <= i < |kept|
        ensures kept[i].fd != f[|f| - 1].fd && kept[i] in f
      {
        assert kept[i] in f[..|f| - 1];
      }
    }
  }

  /** After any sequence of events the descriptors are distinct and index the queue table. */
  lemma {:induction false} EntriesStayProper(events: seq<Event>)
    ensures ProperEntries(EntriesAfter(events))
    decreases |events|
  {
    if events == [] {
    } else {
      var before := EntriesAfter(events[..|events| - 1]);
      EntriesStayProper(events[..|events| - 1]);
      match events[|events| - 1]
      case Connect(fd, memory, queueMemory) => ConnectStaysProper(before, fd, memory, queueMemory);
      case Spawn(fd, pid) => WithChildStaysProper(before, fd, pid);
      case Disconnect(fd, _) => DroppedStaysProper(before, fd);
      case Reap(exited, _) => LivingStaysProper(before, exited);
    }
  }

  lemma ListedSockets(s: seq<ClientSession>, fd: int)
    ensures fd in SocketsOf(s) <==> IsListed(Entries(s), fd)
  {
    if t :| t in s && t.socketFd == fd {
      var i :| 0 <= i < |s| && s[i] == t;
      assert IsAt(Entries(s), fd, i);
    }
    if i :| 0 <= i < |s| && IsAt(Entries(s), fd, i) {
      assert s[i] in s && s[i].socketFd == fd;
    }
  }

  lemma FirstOfItsSocket(s: seq<ClientSession>, k: nat)
    requires k < |s| && ProperSockets(s)
    ensures forall i :: 0 <= i < k ==> Entries(s)[i].fd != Entries(s)[k].fd
  {
    forall i | 0 <= i < k
      ensures Entries(s)[i].fd != Entries(s)[k].fd
    {
      assert Differ(s, i, k);
    }
  }

  lemma EntriesByPlace(s: seq<ClientSession>, f: seq<Entry>)
    requires |f| == |s| && forall i :: 0 <= i < |s| ==> f[i] == Entry(s[i].socketFd, s[i].pid)
    ensures Entries(s) == f
  {
  }

  lemma EntriesWithout(s: seq<ClientSession>, k: nat)
    requires k < |s| && ProperSockets(s)
    ensures Entries(Without(s, k)) == Dropped(Entries(s), s[k].socketFd)
  {
    var f := Entries(s);
    FirstOfItsSocket(s, k);
    DroppedAt(f, k);
    EntriesByPlace(Without(s, k), f[..k] + f[k + 1..]);
  }

  lemma {:induction false} EntriesOfSurvivors(s: seq<ClientSession>, dead: set<ClientSession>, exited: set<int>)
    requires forall i :: 0 <= i < |s| ==> (s[i] in dead <==> s[i].pid > 0 && s[i].pid in exited)
    ensures Entries(Survivors(s, dead)) == Living(Entries(s), exited)
  {
    if s == [] {
    } else {
      var n := |s| - 1;
      EntriesOfSurvivors(s[..n], dead, exited);
      assert Entries(s)[..n] == Entries(s[..n]);
      var kept := Survivors(s[..n], dead);
      if s[n] !in dead {
        assert (kept + [s[n]])[..|kept|] == kept;
      } else {
        assert kept + [] == kept;
      }
    }
  }

  lemma EntriesOfLiving(s: seq<ClientSession>, kept: seq<ClientSession>, f: seq<Entry>, exited: set<int>)
    requires kept == Survivors(s, DeadOf(s, exited)) && f == Entries(s)
    ensures Entries(kept) == Living(f, exited) && Members(kept) <= Members(s)
  {
    var dead := DeadOf(s, exited);
    EntriesOfSurvivors(s, dead, exited);
    forall t | t in Survivors(s, dead)
      ensures t in s
    {
      SurvivorIsListed(s, dead, t);
    }
  }

  lemma ConnectAdds(s: seq<ClientSession>, fd: nat, memory: bool, queueMemory: bool)
    ensures AfterEvent(Entries(s), Connect(fd, memory, queueMemory)) ==
            if memory && queueMemory && fd < MAX_FD_COUNT && fd !in SocketsOf(s) then [Entry(fd, -1)] + Entries(s)
            else Entries(s)
  {
    ListedSockets(s, fd);
  }

  /** A new session at the front of the list, or none. */
  method Take(r: Registry, fd: nat, memory: bool, queueMemory: bool) returns (taken: bool)
    requires r.Valid()
    modifies r`head, r`sessionCount, r`sessions, Members(r.sessions)`prev
    modifies r.table.queues, r.table`owned, r.table`buffers
    ensures r.Valid() && fresh(Members(r.sessions) - old(Members(r.sessions)))
    ensures fresh(r.table.owned - old(r.table.owned)) && fresh(r.table.buffers - old(r.table.buffers))
    ensures taken <==> memory && queueMemory && fd < MAX_FD_COUNT && fd !in old(SocketsOf(r.sessions))
    ensures Entries(r.sessions) ==
            if taken then [Entry(fd, -1)] + old(Entries(r.sessions)) else old(Entries(r.sessions))
  {
    ghost var f := Entries(r.sessions);
    var s := r.CreateSession(fd, memory, queueMemory);
    taken := s != null;
    if taken {
      EntriesByPlace(r.sessions, [Entry(fd, -1)] + f);
    } else {
      EntriesByPlace(r.sessions, f);
    }
  }

  /** A connection on the real registry. */
  method Accept(r: Registry, fd: nat, memory: bool, queueMemory: bool)
    requires r.Valid()
    modifies r`head, r`sessionCount, r`sessions, Members(r.sessions)`prev
    modifies r.table.queues, r.table`owned, r.table`buffers
    ensures r.Valid() && fresh(Members(r.sessions) - old(Members(r.sessions)))
    ensures fresh(r.table.owned - old(r.table.owned)) && fresh(r.table.buffers - old(r.table.buffers))
    ensures Entries(r.sessions) == AfterEvent(old(Entries(r.sessions)), Connect(fd, memory, queueMemory))
  {
    ConnectAdds(r.sessions, fd, memory, queueMemory);
    var taken := Take(r, fd, memory, queueMemory);
  }

  /** A session is given a child. */
  method SetChild(r: Registry, s: ClientSession, ghost k: nat, pid: int)
    requires r.Valid() && k < |r.sessions| && r.sessions[k] == s
    modifies s`pid
    ensures r.Valid() && Entries(r.sessions) == old(Entries(r.sessions))[k := Entry(s.socketFd, pid)]
  {
    ghost var f := Entries(r.sessions);
    ProperIsDistinct(r.sessions);
    s.pid := pid;
    EntriesByPlace(r.sessions, f[k := Entry(s.socketFd, pid)]);
  }

  /** The same, with the session looked up by its socket. */
  method Attach(r: Registry, fd: nat, pid: int)
    requires r.Valid()
    modifies Members(r.sessions)`pid
    ensures r.Valid() && Entries(r.sessions) == AfterEvent(old(Entries(r.sessions)), Spawn(fd, pid))
  {
    ListedSockets(r.sessions, fd);
    var s := r.FindSessionBySocket(fd);
    if s == null {
      NothingChanges(Entries(r.sessions), fd, pid);
      return;
    }
    ghost var k :| 0 <= k < |r.sessions| && r.sessions[k] == s;
    FirstOfItsSocket(r.sessions, k);
    WithChildAt(Entries(r.sessions), k, pid);
    SetChild(r, s, k, pid);
  }

  /** The end of a connection on the real registry. */
  method Drop(r: Registry, s: ClientSession, ghost k: nat, lastWrite: int)
    requires r.Valid() && k < |r.sessions| && r.sessions[k] == s
    modifies r`head, r`sessionCount, r`sessions
    modifies Members(r.sessions)`prev, Members(r.sessions)`next, Members(r.sessions)`fileFd
    modifies r.table.queues, r.table`owned, r.table`buffers, r.table.owned, r.table.buffers
    ensures r.Valid() && Members(r.sessions) <= old(Members(r.sessions))
    ensures r.table.owned == old(r.table.owned) && r.table.buffers == old(r.table.buffers)
    ensures Entries(r.sessions) == Dropped(old(Entries(r.sessions)), s.socketFd)
  {
    EntriesWithout(r.sessions, k);
    ghost var others := Entries(Without(r.sessions, k));
    var _, _, _ := r.DestroySession(s, k, lastWrite);
    EntriesByPlace(r.sessions, others);
  }

  /** The same, with the session looked up by its socket. */
  method Hangup(r: Registry, fd: nat, lastWrite: int)
    requires r.Valid()
    modifies r`head, r`sessionCount, r`sessions
    modifies Members(r.sessions)`prev, Members(r.sessions)`next, Members(r.sessions)`fileFd
    modifies r.table.queues, r.table`owned, r.table`buffers, r.table.owned, r.table.buffers
    ensures r.Valid() && Members(r.sessions) <= old(Members(r.sessions))
    ensures r.table.owned == old(r.table.owned) && r.table.buffers == old(r.table.buffers)
    ensures Entries(r.sessions) == AfterEvent(old(Entries(r.sessions)), Disconnect(fd, lastWrite))
  {
    ListedSockets(r.sessions, fd);
    var s := r.FindSessionBySocket(fd);
    if s == null {
      NothingChanges(Entries(r.sessions), fd, 0);
      return;
    }
    ghost var k :| 0 <= k < |r.sessions| && r.sessions[k] == s;
    Drop(r, s, k, lastWrite);
  }

  /** Reaping, as far as the list of entries is concerned. */
  method Cleanup(r: Registry, exited: set<int>, lastWrites: int -> int) returns (ghost all: seq<ClientSession>)
    requires r.Valid()
    modifies r`head, r`sessionCount, r`sessions
    modifies Members(r.sessions)`prev, Members(r.sessions)`next, Members(r.sessions)`fileFd
    modifies r.table.queues, r.table.owned, r.table.buffers
    ensures r.Valid() && all == old(r.sessions) && Members(r.sessions) <= Members(all)
    ensures Entries(r.sessions) == Living(old(Entries(r.sessions)), exited)
  {
    ghost var f := Entries(r.sessions);
    var closed, killed, written;
    all, closed, killed, written := r.CleanupDeadSessions(exited, lastWrites);
    EntriesOfLiving(all, r.sessions, f, exited);
  }

  /** The children that have exited take their sessions with them. */
  method Bury(r: Registry, exited: set<int>, lastWrites: int -> int)
    requires r.Valid()
    modifies r`head, r`sessionCount, r`sessions
    modifies Members(r.sessions)`prev, Members(r.sessions)`next, Members(r.sessions)`fileFd
    modifies r.table.queues, r.table.owned, r.table.buffers
    ensures r.Valid() && Members(r.sessions) <= old(Members(r.sessions))
    ensures r.table.owned == old(r.table.owned) && r.table.buffers == old(r.table.buffers)
    ensures Entries(r.sessions) == AfterEvent(old(Entries(r.sessions)), Reap(exited, lastWrites))
  {
    ghost var all := Cleanup(r, exited, lastWrites);
  }

  /** One event on the real registry. */
  method Serve(r: Registry, e: Event)
    requires r.Valid()
    modifies r`head, r`sessionCount, r`sessions
    modifies Members(r.sessions)`prev, Members(r.sessions)`next, Members(r.sessions)`fileFd, Members(r.sessions)`pid
    modifies r.table.queues, r.table`owned, r.table`buffers, r.table.owned, r.table.buffers
    ensures r.Valid() && fresh(Members(r.sessions) - old(Members(r.sessions)))
    ensures fresh(r.table.owned - old(r.table.owned)) && fresh(r.table.buffers - old(r.table.buffers))
    ensures Entries(r.sessions) == AfterEvent(old(Entries(r.sessions)), e)
  {
    match e
    case Connect(fd, memory, queueMemory) => Accept(r, fd, memory, queueMemory);
    case Spawn(fd, pid) => Attach(r, fd, pid);
    case Disconnect(fd, lastWrite) => Hangup(r, fd, lastWrite);
    case Reap(exited, lastWrites) => Bury(r, exited, lastWrites);
  }

  /** The next event of a run. */
  method ServeNth(r: Registry, events: seq<Event>, n: nat)
    requires r.Valid() && n < |events| && Entries(r.sessions) == EntriesAfter(events[..n])
    modifies r`head, r`sessionCount, r`sessions
    modifies Members(r.sessions)`prev, Members(r.sessions)`next, Members(r.sessions)`fileFd, Members(r.sessions)`pid
    modifies r.table.queues, r.table`owned, r.table`buffers, r.table.owned, r.table.buffers
    ensures r.Valid() && fresh(Members(r.sessions) - old(Members(r.sessions)))
    ensures fresh(r.table.owned - old(r.table.owned)) && fresh(r.table.buffers - old(r.table.buffers))
    ensures Entries(r.sessions) == EntriesAfter(events[..n + 1])
  {
    assert events[..n + 1][..n] == events[..n];
    Serve(r, events[n]);
  }

  /** The heap structure follows the list of entries through every run, and stays valid. */
  method Replay(events: seq<Event>) returns (r: Registry)
    ensures r.Valid() && fresh(r)
    ensures Entries(r.sessions) == EntriesAfter(events)
  {
    r := new Registry();
    var n := 0;
    while n < |events|
      invariant 0 <= n <= |events| && r.Valid() && fresh(r) && fresh(r.table.queues) && fresh(Members(r.sessions))
      invariant fresh(r.table) && fresh(r.table.owned) && fresh(r.table.buffers)
      invariant Entries(r.sessions) == EntriesAfter(events[..n])
      decreases |events| - n
    {
      ServeNth(r, events, n);
      n := n + 1;
    }
    assert events[..|events|] == events;
  }
}
