/** The table of hooked sessions of k11_extension/source/ipc.c: an array kept sorted by
    session address, searched by bisection and shifted in place. */
module SessionTable {
  import opened Machine

  const MAX_SESSION: nat := 345

  /** A session's address and the first 12 characters of its service name. */
  datatype SessionInfo = SessionInfo(session: u32, name: string)

  function Cut(name: string): (r: string)
    ensures r <= name && |r| == Min(|name|, 12)
  {
    if |name| <= 12 then name else name[..12]
  }

  /** Names are compared in their first 12 characters. */
  predicate SameName(a: string, b: string) {
    Cut(a) == Cut(b)
  }

  function FirstNamed(s: seq<SessionInfo>, name: string): (i: nat)
    ensures i <= |s|
    ensures forall k :: 0 <= k < i ==> !SameName(s[k].name, name)
    ensures i < |s| ==> SameName(s[i].name, name)
  {
    if s == [] || SameName(s[0].name, name) then 0 else 1 + FirstNamed(s[1..], name)
  }

  // ----- sorted records -----

  predicate Sorted(s: seq<SessionInfo>) {
    forall i, j :: 0 <= i < j < |s| ==> s[i].session < s[j].session
  }

  /** The first position whose session is not below the given one. */
  function LowerBound(s: seq<SessionInfo>, session: u32): (i: nat)
    ensures i <= |s|
    ensures forall k :: 0 <= k < i ==> s[k].session < session
    ensures i < |s| ==> session <= s[i].session
  {
    if s == [] || session <= s[0].session then 0 else 1 + LowerBound(s[1..], session)
  }

  predicate Present(s: seq<SessionInfo>, session: u32) {
    exists i :: 0 <= i < |s| && s[i].session == session
  }

  /** In a sorted table the lower bound is the only such position, and a session that is
      present is found there. */
  lemma LowerBoundIsUnique(s: seq<SessionInfo>, session: u32, i: nat)
    requires Sorted(s) && i <= |s|
    requires i > 0 ==> s[i - 1].session < session
    requires i < |s| ==> session <= s[i].session
    ensures i == LowerBound(s, session)
    ensures Present(s, session) <==> i < |s| && s[i].session == session
  {
  }

  // ----- the operations on values -----

  function Added(s: seq<SessionInfo>, session: u32, name: string): seq<SessionInfo> {
    var id := LowerBound(s, session);
    if |s| == MAX_SESSION || (id < |s| && s[id].session == session) then s
    else s[..id] + [SessionInfo(session, Cut(name))] + s[id..]
  }

  function Removed(s: seq<SessionInfo>, session: u32): seq<SessionInfo> {
    var id := LowerBound(s, session);
    if |s| == MAX_SESSION || id == |s| then s else s[..id] + s[id + 1..]
  }

  /** The record a lookup returns, given which objects carry the custom virtual table. */
  function Found(s: seq<SessionInfo>, hooked: set<u32>, session: u32): Option<SessionInfo> {
    var id := LowerBound(s, session);
    if id < |s| && s[id].session in hooked then Some(s[id]) else None
  }

  function Keys(s: seq<SessionInfo>): (k: set<u32>)
    ensures forall x :: x in k <==> Present(s, x)
  {
    set i | 0 <= i < |s| :: s[i].session
  }

  /** The table as a finite map. */
  function Names(s: seq<SessionInfo>): (m: map<u32, string>)
    requires Sorted(s)
    ensures m.Keys == Keys(s)
  {
    map x | x in Keys(s) :: NameOf(s, x)
  }

  function NameOf(s: seq<SessionInfo>, session: u32): string
    requires Present(s, session)
  {
    s[LowerBound(s, session)].name
  }

  lemma NameAt(s: seq<SessionInfo>, i: nat)
    requires Sorted(s) && i < |s|
    ensures s[i].session in Names(s) && Names(s)[s[i].session] == s[i].name
  {
    hide Keys;
    LowerBoundIsUnique(s, s[i].session, i);
  }

  lemma AddedSorted(s: seq<SessionInfo>, session: u32, name: string)
    requires Sorted(s)
    ensures Sorted(Added(s, session, name))
  {
  }

  lemma RemovedSorted(s: seq<SessionInfo>, session: u32)
    requires Sorted(s)
    ensures Sorted(Removed(s, session))
  {
  }

  // ----- the table as a map -----

  function Without(m: map<u32, string>, session: u32): map<u32, string> {
    map x | x in m && x != session :: m[x]
  }

  predicate Entry(m: map<u32, string>, r: SessionInfo) {
    r.session in m && m[r.session] == r.name
  }

  lemma NamesEntry(s: seq<SessionInfo>, r: SessionInfo)
    requires Sorted(s)
    ensures Entry(Names(s), r) <==> r in s
  {
    hide Keys, Names;
    if r in s {
      var i :| 0 <= i < |s| && s[i] == r;
      NameAt(s, i);
    }
    if Present(s, r.session) {
      var i :| 0 <= i < |s| && s[i].session == r.session;
      NameAt(s, i);
    }
  }

  lemma SameEntries(s: seq<SessionInfo>, m: map<u32, string>)
    requires Sorted(s)
    requires forall r :: Entry(m, r) <==> r in s
    ensures Names(s) == m
  {
    hide Names, Keys, Sorted;
    forall r ensures Entry(Names(s), r) <==> Entry(m, r) { NamesEntry(s, r); }
    assert forall x :: x in m ==> Entry(m, SessionInfo(x, m[x]));
    assert forall x :: x in Names(s) ==> Entry(Names(s), SessionInfo(x, Names(s)[x]));
    assert Names(s).Keys == m.Keys;
  }

  /** Adding keeps the first record of a session; a full table takes no more. */
  lemma AddRefines(s: seq<SessionInfo>, session: u32, name: string)
    requires Sorted(s)
    ensures Sorted(Added(s, session, name))
    ensures Names(Added(s, session, name)) ==
      if |s| == MAX_SESSION || session in Names(s) then Names(s) else Names(s)[session := Cut(name)]
  {
    hide Names, Keys, Cut;
    AddedSorted(s, session, name);
    LowerBoundIsUnique(s, session, LowerBound(s, session));
    if |s| != MAX_SESSION && session !in Names(s) { AddedNames(s, session, name); }
  }

  lemma AddedNames(s: seq<SessionInfo>, session: u32, name: string)
    requires Sorted(s) && Sorted(Added(s, session, name)) && |s| != MAX_SESSION && session !in Names(s)
    ensures Names(Added(s, session, name)) == Names(s)[session := Cut(name)]
  {
    hide Names, Keys, Cut, Sorted;
    var t, m := Added(s, session, name), Names(s)[session := Cut(name)];
    AddedMembers(s, session, name);
    forall r ensures Entry(m, r) <==> r in t { NamesEntry(s, r); }
    SameEntries(t, m);
  }

  lemma AddedMembers(s: seq<SessionInfo>, session: u32, name: string)
    requires |s| != MAX_SESSION && !Present(s, session)
    ensures forall r :: r in Added(s, session, name) <==> r == SessionInfo(session, Cut(name)) || r in s
  {
    hide LowerBound, Cut;
    var id := LowerBound(s, session);
    assert s == s[..id] + s[id..];
  }

  lemma RemovedMembers(s: seq<SessionInfo>, id: nat, r: SessionInfo)
    requires Sorted(s) && id < |s|
    ensures r in s[..id] + s[id + 1..] <==> r in s && r.session != s[id].session
  {
    assert s == s[..id] + [s[id]] + s[id + 1..];
    assert forall r :: r in s[..id] ==> r.session < s[id].session;
    assert forall r :: r in s[id + 1..] ==> s[id].session < r.session;
  }

  /** What a removal takes out: the record at the lower bound, whosever it is. */
  lemma RemovedNames(s: seq<SessionInfo>, session: u32)
    requires Sorted(s) && |s| != MAX_SESSION && LowerBound(s, session) < |s|
    ensures Sorted(Removed(s, session))
    ensures Names(Removed(s, session)) == Without(Names(s), s[LowerBound(s, session)].session)
  {
    hide Names, Keys, Sorted, LowerBound;
    RemovedSorted(s, session);
    var id := LowerBound(s, session);
    var m := Without(Names(s), s[id].session);
    forall r ensures Entry(m, r) <==> r in Removed(s, session) {
      NamesEntry(s, r);
      RemovedMembers(s, id, r);
    }
    SameEntries(Removed(s, session), m);
  }

  /** Removing takes out exactly the given session if and only if the table is not full and the
      session is there, or it is not there and nothing lies above it (or the table is full). */
  lemma RemoveRefines(s: seq<SessionInfo>, session: u32)
    requires Sorted(s)
    ensures Sorted(Removed(s, session))
    ensures Names(Removed(s, session)) == Without(Names(s), session) <==>
      if Present(s, session) then |s| != MAX_SESSION else |s| == MAX_SESSION || LowerBound(s, session) == |s|
  {
    RemovedSorted(s, session);
    var id := LowerBound(s, session);
    LowerBoundIsUnique(s, session, id);
    hide Names, Sorted, LowerBound, Removed, Without;
    if |s| != MAX_SESSION && id < |s| {
      RemovedNames(s, session);
      DifferentKeys(Names(s), s[id].session, session);
    } else {
      NothingRemoved(s, session);
      WithoutAbsent(Names(s), session);
    }
  }

  lemma NothingRemoved(s: seq<SessionInfo>, session: u32)
    requires |s| == MAX_SESSION || LowerBound(s, session) == |s|
    ensures Removed(s, session) == s
  {
  }

  lemma WithoutAbsent(m: map<u32, string>, x: u32)
    ensures Without(m, x) == m <==> x !in m
  {
  }

  lemma DifferentKeys(m: map<u32, string>, x: u32, y: u32)
    requires x in m
    ensures Without(m, x) == Without(m, y) <==> x == y
  {
    if x != y { assert x in Without(m, y); }
  }

  function FoundInMap(m: map<u32, string>, hooked: set<u32>, session: u32): Option<SessionInfo> {
    if session in m && session in hooked then Some(SessionInfo(session, m[session])) else None
  }

  /** A lookup is a lookup in the map if and only if the session is present, or nothing above
      it is hooked: otherwise it answers with a neighbour's record. */
  lemma LookupRefines(s: seq<SessionInfo>, hooked: set<u32>, session: u32)
    requires Sorted(s)
    ensures Found(s, hooked, session) == FoundInMap(Names(s), hooked, session) <==>
      (Present(s, session) || LowerBound(s, session) == |s| || s[LowerBound(s, session)].session !in hooked)
  {
    hide Names, Keys;
    var id := LowerBound(s, session);
    LowerBoundIsUnique(s, session, id);
    if Present(s, session) { NameAt(s, id); }
  }

  lemma NeighbourAnswers()
    ensures var s := [SessionInfo(8, "hid")]; Found(s, {8}, 4) == Some(SessionInfo(8, "hid")) && Removed(s, 4) == []
  {
  }

  // ----- names -----

  /** A session with a name of at most 12 characters is found under the name it was added with. */
  lemma FoundAsAdded(s: seq<SessionInfo>, hooked: set<u32>, session: u32, name: string)
    requires Sorted(s) && |s| < MAX_SESSION && !Present(s, session) && |name| <= 12
    ensures var t := Added(s, session, name); Found(t, hooked + {session}, session) == Some(SessionInfo(session, name))
  {
    hide Names, Keys, LowerBound, Added, Present;
    var t := Added(s, session, name);
    AddRefines(s, session, name);
    assert session in Names(t);
    LookupRefines(t, hooked + {session}, session);
  }

  /** A service name of at most 12 characters finds the first record of exactly that name, if all
      the names in the table were added as such. */
  lemma FirstOfName(s: seq<SessionInfo>, name: string, i: nat)
    requires |name| <= 12 && forall k :: 0 <= k < |s| ==> |s[k].name| <= 12
    requires i <= |s| && (i < |s| ==> s[i].name == name) && forall k :: 0 <= k < i ==> s[k].name != name
    ensures FirstNamed(s, name) == i
  {
    forall k | 0 <= k < |s| ensures SameName(s[k].name, name) <==> s[k].name == name {}
  }

  // ----- runs -----

  datatype Op = Add(session: u32, name: string) | Destroy(session: u32)

  /** The array, and the sessions whose destructor is hooked. */
  datatype State = State(infos: seq<SessionInfo>, hooked: set<u32>)

  function Step(v: State, op: Op): State {
    match op
    case Add(session, name) => State(Added(v.infos, session, name), v.hooked + {session})
    case Destroy(session) =>
      if session in v.hooked then State(Removed(v.infos, session), v.hooked - {session}) else v
  }

  function Run(v: State, ops: seq<Op>): State
    decreases |ops|
  {
    if ops == [] then v else Run(Step(v, ops[0]), ops[1..])
  }

  /** The sessions that are alive, each with the name it was first added with. */
  function Live(live: map<u32, string>, op: Op): map<u32, string> {
    match op
    case Add(session, name) => if session in live then live else live[session := Cut(name)]
    case Destroy(session) => Without(live, session)
  }

  function LiveAfter(live: map<u32, string>, ops: seq<Op>): map<u32, string>
    decreases |ops|
  {
    if ops == [] then live else LiveAfter(Live(live, ops[0]), ops[1..])
  }

  /** The live sessions at the first moment when there are as many as the table holds, or at
      the end if there never are. */
  function Frozen(live: map<u32, string>, ops: seq<Op>): map<u32, string>
    decreases |ops|
  {
    if |live| == MAX_SESSION || ops == [] then live else Frozen(Live(live, ops[0]), ops[1..])
  }

  predicate Represents(v: State, live: map<u32, string>) {
    Sorted(v.infos) && Names(v.infos) == live && v.hooked == live.Keys
  }

  lemma {:induction false} KeyCount(s: seq<SessionInfo>)
    requires Sorted(s)
    ensures |Keys(s)| == |s|
  {
    if s == [] {
      assert Keys(s) == {};
    } else {
      KeysOfFront(s);
      hide Keys;
      KeyCount(s[..|s| - 1]);
    }
  }

  lemma KeysOfFront(s: seq<SessionInfo>)
    requires Sorted(s) && s != []
    ensures var last := |s| - 1;
      Sorted(s[..last]) && s[last].session !in Keys(s[..last]) && Keys(s) == Keys(s[..last]) + {s[last].session}
  {
  }

  lemma MapCount(m: map<u32, string>)
    ensures |m| == |m.Keys|
  {
  }

  lemma AddRepresents(v: State, live: map<u32, string>, session: u32, name: string)
    requires Represents(v, live) && |live| < MAX_SESSION
    ensures Represents(Step(v, Add(session, name)), Live(live, Add(session, name)))
  {
    hide Names, Keys, Added, LowerBound, Sorted, Cut;
    NotFull(v.infos);
    AddRefines(v.infos, session, name);
  }

  lemma DestroyRepresents(v: State, live: map<u32, string>, session: u32)
    requires Represents(v, live) && |live| < MAX_SESSION
    ensures Represents(Step(v, Destroy(session)), Live(live, Destroy(session)))
  {
    hide Names, Keys, Removed, LowerBound, Sorted, Without;
    NotFull(v.infos);
    RemoveRefines(v.infos, session);
    WithoutAbsent(live, session);
    WithoutKeys(live, session);
  }

  lemma StepRepresents(v: State, live: map<u32, string>, op: Op)
    requires Represents(v, live) && |live| < MAX_SESSION
    ensures Represents(Step(v, op), Live(live, op)) && |Live(live, op)| <= MAX_SESSION
  {
    hide Names, Sorted, Step, Live;
    match op {
      case Add(session, name) => AddRepresents(v, live, session, name);
      case Destroy(session) => DestroyRepresents(v, live, session);
    }
    NotFull(v.infos);
    NotFull(Step(v, op).infos);
    OneMore(v, op);
  }

  lemma OneMore(v: State, op: Op)
    ensures |Step(v, op).infos| <= |v.infos| + 1
  {
  }

  lemma WithoutKeys(m: map<u32, string>, x: u32)
    ensures Without(m, x).Keys == m.Keys - {x}
  {
  }

  lemma NotFull(s: seq<SessionInfo>)
    requires Sorted(s)
    ensures |Names(s)| == |s|
  {
    KeyCount(s);
    MapCount(Names(s));
  }

  lemma StepHooks(v: State, live: map<u32, string>, op: Op)
    requires v.hooked == live.Keys
    ensures Step(v, op).hooked == Live(live, op).Keys
  {
    hide Added, Removed, Without, Cut;
    if op.Destroy? {
      WithoutAbsent(live, op.session);
      WithoutKeys(live, op.session);
    }
  }

  /** The live sessions are always the hooked ones. */
  lemma {:induction false} HookedAreLive(v: State, live: map<u32, string>, ops: seq<Op>)
    requires v.hooked == live.Keys
    ensures Run(v, ops).hooked == LiveAfter(live, ops).Keys
    decreases |ops|
  {
    hide Step, Live;
    if ops != [] {
      StepHooks(v, live, ops[0]);
      HookedAreLive(Step(v, ops[0]), Live(live, ops[0]), ops[1..]);
    }
  }

  /** A table that is full once stays as it is for ever: no session is added to it, and none
      that is destroyed leaves it. */
  lemma {:induction false} FullTableStays(v: State, ops: seq<Op>)
    requires |v.infos| == 345
    ensures Run(v, ops).infos == v.infos
    decreases |ops|
  {
    hide LowerBound;
    if ops != [] { FullTableStays(Step(v, ops[0]), ops[1..]); }
  }

  /** After every run the array is sorted without duplicates, and holds the sessions that were
      alive at the first moment when there were as many as fit. */
  lemma {:induction false} RunFreezes(v: State, live: map<u32, string>, ops: seq<Op>)
    requires Represents(v, live) && |live| <= 345
    ensures Sorted(Run(v, ops).infos) && Names(Run(v, ops).infos) == Frozen(live, ops)
    decreases |ops|
  {
    hide Names, Sorted, Step, Live;
    NotFull(v.infos);
    if |live| == MAX_SESSION {
      FullTableStays(v, ops);
    } else if ops != [] {
      StepRepresents(v, live, ops[0]);
      RunFreezes(Step(v, ops[0]), Live(live, ops[0]), ops[1..]);
    }
  }

  /** So a run ends with the live sessions, each under its first name, if and only if these are
      the ones that were alive at that moment. */
  lemma RunRepresents(v: State, live: map<u32, string>, ops: seq<Op>)
    requires Represents(v, live) && |live| <= 345
    ensures Represents(Run(v, ops), LiveAfter(live, ops)) <==> LiveAfter(live, ops) == Frozen(live, ops)
  {
    hide Names, Sorted;
    RunFreezes(v, live, ops);
    HookedAreLive(v, live, ops);
  }

  /** After any run from the empty table, a live session is found with its own record if and
      only if it was alive at that moment, under the name that it has now. */
  lemma LiveSessionsFound(ops: seq<Op>, session: u32)
    requires session in LiveAfter(map[], ops)
    ensures var v := Run(State([], {}), ops);
      var own := SessionInfo(session, LiveAfter(map[], ops)[session]);
      Found(v.infos, v.hooked, session) == Some(own) <==> Entry(Frozen(map[], ops), own)
  {
    hide LowerBound, Keys, Names;
    var empty, v := State([], {}), Run(State([], {}), ops);
    assert Names(empty.infos) == map[] by { assert Keys(empty.infos) == {}; }
    RunFreezes(empty, map[], ops);
    HookedAreLive(empty, map[], ops);
    LookupRefines(v.infos, v.hooked, session);
    LowerBoundIsUnique(v.infos, session, LowerBound(v.infos, session));
  }

  lemma InsertedAt(s: seq<SessionInfo>, t: seq<SessionInfo>, id: nat)
    requires id <= |s| && |t| == |s| + 1
    requires forall k :: 0 <= k < id ==> t[k] == s[k]
    requires forall k :: id < k <= |s| ==> t[k] == s[k - 1]
    ensures t == s[..id] + [t[id]] + s[id..]
  {
  }

  // ----- the array -----

  class Table {
    const sessionInfos: array<SessionInfo>
    var nbActiveSessions: nat
    var hooked: set<u32>
    var lockDepth: nat

    constructor ()
      ensures Valid() && fresh(sessionInfos) && Contents() == [] && hooked == {} && lockDepth == 0
    {
      sessionInfos := new SessionInfo[MAX_SESSION](_ => SessionInfo(0, ""));
      nbActiveSessions, hooked, lockDepth := 0, {}, 0;
    }

    ghost predicate Valid()
      reads this, sessionInfos
    {
      sessionInfos.Length == MAX_SESSION && nbActiveSessions <= MAX_SESSION && Sorted(Contents())
    }

    ghost function Contents(): (s: seq<SessionInfo>)
      requires sessionInfos.Length == MAX_SESSION && nbActiveSessions <= MAX_SESSION
      reads this, sessionInfos
      ensures |s| == nbActiveSessions
    {
      sessionInfos[..nbActiveSessions]
    }

    ghost function Value(): State
      requires Valid()
      reads this, sessionInfos
    {
      State(Contents(), hooked)
    }

    /** Bisection between two positions whose sessions enclose the given one. */
    method FindClosestSlot(session: u32) returns (slot: nat)
      requires Valid()
      ensures slot == LowerBound(Contents(), session)
    {
      ghost var s := Contents();
      if nbActiveSessions == 0 || session <= sessionInfos[0].session {
        LowerBoundIsUnique(s, session, 0);
        return 0;
      } else if session > sessionInfos[nbActiveSessions - 1].session {
        LowerBoundIsUnique(s, session, nbActiveSessions);
        return nbActiveSessions;
      }
      var a, b := 0, nbActiveSessions - 1;
      var more := true;
      while more
        invariant 0 <= a < b < nbActiveSessions
        invariant sessionInfos[a].session < session <= sessionInfos[b].session
        invariant !more ==> b == a + 1
        decreases b - a, more
      {
        var m := (a + b) / 2;
        if sessionInfos[m].session < session {
          a := m;
        } else if sessionInfos[m].session > session {
          b := m;
        } else {
          assert m > 0 ==> s[m - 1].session < s[m].session;
          LowerBoundIsUnique(s, session, m);
          return m;
        }
        more := b - a > 1;
      }
      LowerBoundIsUnique(s, session, b);
      return b;
    }

    method Lookup(session: u32) returns (r: Option<SessionInfo>)
      requires Valid()
      modifies this`lockDepth
      ensures lockDepth == old(lockDepth)
      ensures r == Found(Contents(), hooked, session)
    {
      lockDepth := lockDepth + 2;
      var id := FindClosestSlot(session);
      if id == nbActiveSessions {
        r := None;
      } else {
        r := if sessionInfos[id].session in hooked then Some(sessionInfos[id]) else None;
      }
      lockDepth := lockDepth - 2;
    }

    /** The lowest session with a given service name, provided it is still hooked. */
    method FindFirst(name: string) returns (r: Option<SessionInfo>)
      requires Valid()
      modifies this`lockDepth
      ensures lockDepth == old(lockDepth)
      ensures var id := FirstNamed(Contents(), name);
        r == if id < |Contents()| && Contents()[id].session in hooked then Some(Contents()[id]) else None
    {
      hide Cut;
      lockDepth := lockDepth + 2;
      var id := 0;
      while id < nbActiveSessions && !SameName(sessionInfos[id].name, name)
        invariant id <= nbActiveSessions && id <= FirstNamed(Contents(), name)
      {
        id := id + 1;
      }
      if id == nbActiveSessions {
        r := None;
      } else {
        r := if sessionInfos[id].session in hooked then Some(sessionInfos[id]) else None;
      }
      lockDepth := lockDepth - 2;
    }

    method Add(session: u32, name: string)
      requires Valid()
      modifies this`nbActiveSessions, this`hooked, this`lockDepth, sessionInfos
      ensures Valid() && lockDepth == old(lockDepth)
      ensures Value() == Step(old(Value()), Op.Add(session, name))
    {
      hide LowerBound, Cut, Sorted;
      hooked := hooked + {session};
      lockDepth := lockDepth + 2;
      ghost var s := Contents();
      AddedSorted(s, session, name);
      if nbActiveSessions == MAX_SESSION {
        lockDepth := lockDepth - 2;
        return;
      }
      var id := FindClosestSlot(session);
      if id != nbActiveSessions && sessionInfos[id].session == session {
        lockDepth := lockDepth - 2;
        return;
      }
      ShiftUp(id, s);
      nbActiveSessions := nbActiveSessions + 1;
      sessionInfos[id] := SessionInfo(session, Cut(name));
      lockDepth := lockDepth - 2;
      InsertedAt(s, Contents(), id);
    }

    method ShiftUp(id: nat, ghost s: seq<SessionInfo>)
      requires sessionInfos.Length == MAX_SESSION && id <= nbActiveSessions < MAX_SESSION
      requires s == sessionInfos[..nbActiveSessions]
      modifies sessionInfos
      ensures forall k :: 0 <= k < id ==> sessionInfos[k] == s[k]
      ensures forall k :: id < k <= nbActiveSessions ==> sessionInfos[k] == s[k - 1]
    {
      var i := nbActiveSessions;
      while i > id && i != 0
        invariant id <= i <= nbActiveSessions
        invariant forall k :: 0 <= k < i ==> sessionInfos[k] == s[k]
        invariant forall k :: i < k <= nbActiveSessions ==> sessionInfos[k] == s[k - 1]
      {
        sessionInfos[i] := sessionInfos[i - 1];
        i := i - 1;
      }
    }

    method Remove(session: u32)
      requires Valid()
      modifies this`nbActiveSessions, this`lockDepth, sessionInfos
      ensures Valid() && lockDepth == old(lockDepth)
      ensures Contents() == Removed(old(Contents()), session)
      ensures nbActiveSessions < old(nbActiveSessions) ==> sessionInfos[nbActiveSessions] == SessionInfo(0, "")
    {
      hide LowerBound;
      lockDepth := lockDepth + 2;
      ghost var s := Contents();
      RemovedSorted(s, session);
      if nbActiveSessions == MAX_SESSION {
        lockDepth := lockDepth - 2;
        return;
      }
      var id := FindClosestSlot(session);
      if id == nbActiveSessions {
        lockDepth := lockDepth - 2;
        return;
      }
      ShiftDown(id, s);
      nbActiveSessions := nbActiveSessions - 1;
      sessionInfos[nbActiveSessions] := SessionInfo(0, "");
      lockDepth := lockDepth - 2;
      assert Contents() == Removed(s, session);
    }

    method ShiftDown(id: nat, ghost s: seq<SessionInfo>)
      requires sessionInfos.Length == MAX_SESSION && id < nbActiveSessions <= MAX_SESSION
      requires s == sessionInfos[..nbActiveSessions]
      modifies sessionInfos
      ensures forall k :: 0 <= k < id ==> sessionInfos[k] == s[k]
      ensures forall k :: id <= k < nbActiveSessions - 1 ==> sessionInfos[k] == s[k + 1]
    {
      for i := id to nbActiveSessions - 1
        invariant forall k :: 0 <= k < id ==> sessionInfos[k] == s[k]
        invariant forall k :: id <= k < i ==> sessionInfos[k] == s[k + 1]
        invariant forall k :: i <= k < nbActiveSessions ==> sessionInfos[k] == s[k]
      {
        sessionInfos[i] := sessionInfos[i + 1];
      }
    }

    /** The destruction of a session object: only a hooked one reaches the table. */
    method Destroy(session: u32)
      requires Valid()
      modifies this`nbActiveSessions, this`hooked, this`lockDepth, sessionInfos
      ensures Valid() && lockDepth == old(lockDepth)
      ensures Value() == Step(old(Value()), Op.Destroy(session))
    {
      if session in hooked {
        hooked := hooked - {session};
        Remove(session);
      }
    }
  }
}
