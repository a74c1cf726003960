/**
 The table of named sessions of the kernel extension: an array kept sorted by session address, searched by
 bisection.  A session is its address; a name is what its twelve bytes hold.
 */
module Sessions {
  type Name = s: seq<char> | |s| == 12 witness seq(12, _ => '\0')

  datatype SessionInfo = SessionInfo(session: nat, name: Name)

  const MAX_SESSION: nat := 345

  /** strncpy into twelve bytes. */
  function Stored(name: string): Name {
    seq(12, i requires 0 <= i < 12 => if i < |name| then name[i] else '\0')
  }

  /** A name of up to twelve characters is kept, with zeros behind it; of a longer one the first twelve are. */
  lemma StoredIs(name: string)
    ensures |name| <= 12 ==> Stored(name)[..|name|] == name && forall i | |name| <= i < 12 :: Stored(name)[i] == '\0'
    ensures |name| > 12 ==> Stored(name) == name[..12]
  {
  }

  function FirstTwelve(name: string): string { if |name| <= 12 then name else name[..12] }

  lemma ShorterTells(a: string, b: string)
    requires |a| < |b| && |a| < 12 && '\0' !in b
    ensures Stored(a) != Stored(b)
  {
    assert Stored(b)[|a|] == b[|a|];
  }

  /** So names without zeros are told apart by their first twelve characters. */
  lemma StoredTells(a: string, b: string)
    requires '\0' !in a && '\0' !in b
    ensures Stored(a) == Stored(b) <==> FirstTwelve(a) == FirstTwelve(b)
  {
    hide Stored;
    StoredIs(a);
    StoredIs(b);
    if |a| < |b| && |a| < 12 {
      ShorterTells(a, b);
    } else if |b| < |a| && |b| < 12 {
      ShorterTells(b, a);
    }
  }

  ghost predicate Sorted(c: seq<SessionInfo>) {
    forall i, j | 0 <= i < j < |c| :: c[i].session < c[j].session
  }

  /** Entries before place k are below the session, the others are not. */
  ghost predicate IsBound(c: seq<SessionInfo>, s: nat, k: nat) {
    k <= |c| && (forall i | 0 <= i < k :: c[i].session < s) && (forall i | k <= i < |c| :: s <= c[i].session)
  }

  /** The place of the first session not below s. */
  function BoundOf(c: seq<SessionInfo>, s: nat): (k: nat)
    ensures k <= |c|
  {
    if c == [] then 0 else if c[|c| - 1].session < s then |c| else BoundOf(c[..|c| - 1], s)
  }

  /** In a sorted table there is one such place. */
  lemma {:induction false} BoundIs(c: seq<SessionInfo>, s: nat, k: nat)
    requires Sorted(c)
    ensures IsBound(c, s, k) <==> k == BoundOf(c, s)
  {
    if c != [] {
      var d := c[..|c| - 1];
      if c[|c| - 1].session >= s && k <= |d| {
        BoundIs(d, s, k);
        assert IsBound(c, s, k) <==> IsBound(d, s, k) by {
          assert forall i | 0 <= i < |d| :: d[i] == c[i];
          if IsBound(d, s, k) {
            assert forall i | k <= i < |c| :: s <= c[i].session;
          }
        }
      }
    }
  }

  /** What the table stands for. */
  ghost function MapOf(c: seq<SessionInfo>): map<nat, Name> {
    if c == [] then map[] else MapOf(c[..|c| - 1])[c[|c| - 1].session := c[|c| - 1].name]
  }

  ghost predicate InTable(c: seq<SessionInfo>, s: nat) {
    exists i | 0 <= i < |c| :: c[i].session == s
  }

  lemma {:induction false} MapOfHas(c: seq<SessionInfo>)
    requires Sorted(c)
    ensures forall i | 0 <= i < |c| :: c[i].session in MapOf(c) && MapOf(c)[c[i].session] == c[i].name
    ensures forall s :: s in MapOf(c) <==> InTable(c, s)
  {
    if c != [] {
      var d := c[..|c| - 1];
      MapOfHas(d);
      forall i | 0 <= i < |c|
        ensures c[i].session in MapOf(c) && MapOf(c)[c[i].session] == c[i].name
      {
        assert i < |d| ==> d[i] == c[i];
      }
      forall s
        ensures s in MapOf(c) <==> InTable(c, s)
      {
        LastInTable(c, s);
      }
    }
  }

  lemma LastInTable(c: seq<SessionInfo>, s: nat)
    requires c != []
    ensures InTable(c, s) <==> InTable(c[..|c| - 1], s) || s == c[|c| - 1].session
  {
    var d := c[..|c| - 1];
    if InTable(c, s) {
      var i :| 0 <= i < |c| && c[i].session == s;
      assert i < |d| ==> d[i].session == s;
    }
    if InTable(d, s) {
      var i :| 0 <= i < |d| && d[i].session == s;
      assert c[i].session == s;
    }
  }

  /** Whether a session is stored can be seen at its bound. */
  lemma StoredAtBound(c: seq<SessionInfo>, s: nat, k: nat)
    requires Sorted(c) && IsBound(c, s, k)
    ensures s in MapOf(c) <==> k < |c| && c[k].session == s
    ensures s in MapOf(c) ==> MapOf(c)[s] == c[k].name
  {
    hide MapOf;
    MapOfHas(c);
  }

  /** SessionInfo_Add on the contents, k being the bound of the session. */
  function Added(c: seq<SessionInfo>, s: nat, name: string, k: nat): seq<SessionInfo>
    requires k <= |c|
  {
    if |c| == MAX_SESSION || (k < |c| && c[k].session == s) then c
    else c[..k] + [SessionInfo(s, Stored(name))] + c[k..]
  }

  /** SessionInfo_Remove on the contents. */
  function Removed(c: seq<SessionInfo>, k: nat): seq<SessionInfo>
    requires k <= |c|
  {
    if |c| == MAX_SESSION || k == |c| then c else c[..k] + c[k + 1..]
  }

  /** A map with the same sessions and names is the one that the table stands for. */
  lemma MapFrom(c: seq<SessionInfo>, m: map<nat, Name>)
    requires Sorted(c)
    requires forall i | 0 <= i < |c| :: c[i].session in m && m[c[i].session] == c[i].name
    requires forall s | s in m :: InTable(c, s)
    ensures MapOf(c) == m
  {
    hide MapOf;
    MapOfHas(c);
    forall s | s in m
      ensures s in MapOf(c) && MapOf(c)[s] == m[s]
    {
      var i :| 0 <= i < |c| && c[i].session == s;
    }
    forall s | s in MapOf(c)
      ensures s in m
    {
      assert InTable(c, s);
    }
    assert MapOf(c).Keys == m.Keys;
  }

  lemma InAdded(c: seq<SessionInfo>, e: SessionInfo, k: nat, x: nat)
    requires k <= |c| && (InTable(c, x) || x == e.session)
    ensures InTable(c[..k] + [e] + c[k..], x)
  {
    var d := c[..k] + [e] + c[k..];
    if x == e.session {
      assert d[k].session == x;
    } else {
      var i :| 0 <= i < |c| && c[i].session == x;
      assert d[if i < k then i else i + 1].session == x;
    }
  }

  lemma InRemoved(c: seq<SessionInfo>, k: nat, x: nat)
    requires k < |c| && InTable(c, x) && x != c[k].session
    ensures InTable(c[..k] + c[k + 1..], x)
  {
    var d := c[..k] + c[k + 1..];
    var i :| 0 <= i < |c| && c[i].session == x;
    assert d[if i < k then i else i - 1].session == x;
  }

  lemma AddSorted(c: seq<SessionInfo>, e: SessionInfo, k: nat)
    requires Sorted(c) && IsBound(c, e.session, k) && (k < |c| ==> c[k].session != e.session)
    ensures Sorted(c[..k] + [e] + c[k..])
  {
    assert k < |c| ==> forall i | k <= i < |c| :: c[k].session <= c[i].session;
  }

  lemma RemoveSorted(c: seq<SessionInfo>, k: nat)
    requires Sorted(c) && k < |c|
    ensures Sorted(c[..k] + c[k + 1..])
  {
  }

  /** An entry of the table with e put in is e, or one from before, with another session. */
  lemma EntryAdded(c: seq<SessionInfo>, e: SessionInfo, k: nat, i: nat)
    requires Sorted(c) && k <= |c| && i <= |c| && e.session !in MapOf(c)
    ensures var d := (c[..k] + [e] + c[k..])[i];
      d == e || (d.session != e.session && d.session in MapOf(c) && MapOf(c)[d.session] == d.name)
  {
    hide MapOf, Sorted;
    MapOfHas(c);
    var d, j := (c[..k] + [e] + c[k..])[i], if i < k then i else i - 1;
    if i != k {
      assert d == c[j] && c[j].session in MapOf(c);
    }
  }

  /** Adding keeps the table sorted, and stores the session unless it is stored already or the table is full. */
  lemma AddMeans(c: seq<SessionInfo>, s: nat, name: string, k: nat)
    requires Sorted(c) && IsBound(c, s, k)
    ensures Sorted(Added(c, s, name, k))
    ensures MapOf(Added(c, s, name, k)) ==
      if |c| == MAX_SESSION || s in MapOf(c) then MapOf(c) else MapOf(c)[s := Stored(name)]
  {
    hide MapOf, Stored, InTable, Sorted;
    StoredAtBound(c, s, k);
    MapOfHas(c);
    if |c| != MAX_SESSION && s !in MapOf(c) {
      var e := SessionInfo(s, Stored(name));
      var d, m := c[..k] + [e] + c[k..], MapOf(c)[s := Stored(name)];
      AddSorted(c, e, k);
      forall x | x in m
        ensures InTable(d, x)
      {
        InAdded(c, e, k, x);
      }
      forall i | 0 <= i < |d|
        ensures d[i].session in m && m[d[i].session] == d[i].name
      {
        EntryAdded(c, e, k, i);
      }
      MapFrom(d, m);
    }
  }

  /** Removing takes out the entry at the bound, whatever its session is. */
  lemma RemoveMeans(c: seq<SessionInfo>, k: nat)
    requires Sorted(c) && k <= |c|
    ensures Sorted(Removed(c, k))
    ensures MapOf(Removed(c, k)) == if |c| == MAX_SESSION || k == |c| then MapOf(c) else MapOf(c) - {c[k].session}
  {
    hide MapOf, InTable;
    MapOfHas(c);
    if |c| != MAX_SESSION && k < |c| {
      var d, m := c[..k] + c[k + 1..], MapOf(c) - {c[k].session};
      RemoveSorted(c, k);
      forall x | x in m
        ensures InTable(d, x)
      {
        InRemoved(c, k, x);
      }
      forall i | 0 <= i < |d|
        ensures d[i].session in m && m[d[i].session] == d[i].name
      {
        var j := if i < k then i else i + 1;
        assert d[i] == c[j] && c[j].session in MapOf(c) && c[j].session != c[k].session;
      }
      MapFrom(d, m);
    }
  }

  /**
   Remove takes out the session, and nothing else, exactly when the table is not full and the session is stored
   or lies above all stored ones, or the table is full and it is not stored.
   */
  lemma RemoveIsRight(c: seq<SessionInfo>, s: nat, k: nat)
    requires Sorted(c) && IsBound(c, s, k)
    ensures MapOf(Removed(c, k)) == MapOf(c) - {s} <==>
      if |c| == MAX_SESSION then s !in MapOf(c) else s in MapOf(c) || k == |c|
  {
    hide MapOf, InTable, Sorted, Removed;
    StoredAtBound(c, s, k);
    MapOfHas(c);
    RemoveMeans(c, k);
    if s !in MapOf(c) {
      assert MapOf(c) - {s} == MapOf(c);
      if |c| != MAX_SESSION && k < |c| {
        assert c[k].session in MapOf(c) && c[k].session !in MapOf(Removed(c, k));
      }
    } else if |c| == MAX_SESSION {
      assert s !in MapOf(c) - {s};
    }
  }

  datatype Lookup = Nothing | Entry(info: SessionInfo)

  /** SessionInfo_Lookup on the contents; custom tells which session objects carry the hooked method table. */
  function LookedUp(c: seq<SessionInfo>, k: nat, custom: nat -> bool): Lookup
    requires k <= |c|
  {
    if k == |c| then Nothing else if custom(c[k].session) then Entry(c[k]) else Nothing
  }

  /** What looking a session up should give. */
  ghost function Wanted(m: map<nat, Name>, s: nat): Lookup {
    if s in m then Entry(SessionInfo(s, m[s])) else Nothing
  }

  /**
   With all stored objects hooked, looking a session up gives what the map says exactly when the session is
   stored or lies above all stored ones; otherwise it gives the entry of the next session.
   */
  lemma LookupIsRight(c: seq<SessionInfo>, s: nat, k: nat, custom: nat -> bool)
    requires Sorted(c) && IsBound(c, s, k) && forall i | 0 <= i < |c| :: custom(c[i].session)
    ensures LookedUp(c, k, custom) == Wanted(MapOf(c), s) <==> s in MapOf(c) || k == |c|
  {
    hide MapOf;
    StoredAtBound(c, s, k);
  }

  /** The table in memory. */
  class SessionTable {
    const slots: array<SessionInfo>
    var n: nat

    constructor ()
      ensures Valid() && Contents() == [] && fresh(slots)
    {
      slots := new SessionInfo[MAX_SESSION](_ => SessionInfo(0, Stored("")));
      n := 0;
    }

    ghost predicate Valid()
      reads this, slots
    {
      slots.Length == MAX_SESSION && n <= MAX_SESSION && Sorted(slots[..n])
    }

    ghost function Contents(): seq<SessionInfo>
      requires Valid()
      reads this, slots
    {
      slots[..n]
    }

    /** SessionInfo_FindClosestSlot: the place of the first session not below the given one. */
    method FindClosestSlot(session: nat) returns (id: nat)
      requires Valid()
      ensures IsBound(Contents(), session, id)
    {
      if n == 0 || session <= slots[0].session {
        return 0;
      } else if session > slots[n - 1].session {
        return n;
      }
      var a, b := 0, n - 1;
      var going := true;
      while going
        invariant 0 <= a < b < n && slots[a].session < session <= slots[b].session
        invariant going || b - a <= 1
        decreases going, b - a
      {
        var m := (a + b) / 2;
        if slots[m].session < session {
          a := m;
        } else if slots[m].session > session {
          b := m;
        } else {
          return m;
        }
        going := b - a > 1;
      }
      return b;
    }

    /** SessionInfo_Lookup. */
    method LookUp(session: nat, custom: nat -> bool) returns (r: Lookup)
      requires Valid()
      ensures r == LookedUp(Contents(), BoundOf(Contents(), session), custom)
      ensures session in MapOf(Contents()) && custom(session) ==>
        r == Entry(SessionInfo(session, MapOf(Contents())[session]))
    {
      hide MapOf, BoundOf;
      var id := FindClosestSlot(session);
      BoundIs(Contents(), session, id);
      StoredAtBound(Contents(), session, id);
      if id == n {
        return Nothing;
      }
      assert slots[id] == Contents()[id];
      return if custom(slots[id].session) then Entry(slots[id]) else Nothing;
    }

    /** The entries from id on moved up, and a new one put there. */
    method Insert(id: nat, e: SessionInfo)
      requires slots.Length == MAX_SESSION && id <= n < MAX_SESSION
      modifies this`n, slots
      ensures n == old(n) + 1 && slots[..n] == old(slots[..id]) + [e] + old(slots[id..n])
    {
      ghost var c := slots[..n];
      var i := n;
      while i > id && i != 0
        invariant id <= i <= n == |c| < MAX_SESSION
        invariant forall j | 0 <= j < i :: slots[j] == c[j]
        invariant forall j | i < j <= n :: slots[j] == c[j - 1]
      {
        slots[i] := slots[i - 1];
        i := i - 1;
      }
      n := n + 1;
      slots[id] := e;
      assert slots[..n] == c[..id] + [e] + c[id..];
    }

    /** The entries behind id moved down, and the last one cleared. */
    method Delete(id: nat)
      requires slots.Length == MAX_SESSION && id < n <= MAX_SESSION
      modifies this`n, slots
      ensures n == old(n) - 1 && slots[..n] == old(slots[..id]) + old(slots[id + 1..n])
    {
      ghost var c := slots[..n];
      var i := id;
      while i < n - 1
        invariant id <= i <= n - 1 < |c| == n
        invariant forall j | 0 <= j < id :: slots[j] == c[j]
        invariant forall j | id <= j < i :: slots[j] == c[j + 1]
        invariant forall j | i <= j < n :: slots[j] == c[j]
      {
        slots[i] := slots[i + 1];
        i := i + 1;
      }
      n := n - 1;
      slots[n] := SessionInfo(0, Stored(""));
      assert slots[..n] == c[..id] + c[id + 1..];
    }

    /** SessionInfo_Add. */
    method Add(session: nat, name: string)
      requires Valid()
      modifies this`n, slots
      ensures Valid() && Contents() == Run(old(Contents()), AddOp(session, name))
    {
      hide MapOf, Stored, Sorted, BoundOf;
      ghost var c := Contents();
      AddMeans(c, session, name, FoundBound(c, session));
      if n == MAX_SESSION {
        return;
      }
      var id := FindClosestSlot(session);
      BoundIs(c, session, id);
      assert id < n ==> c[id] == slots[id];
      if id != n && slots[id].session == session {
        return;
      }
      Insert(id, SessionInfo(session, Stored(name)));
      assert c[..id] == old(slots[..id]) && c[id..] == old(slots[id..n]);
    }

    /** SessionInfo_Remove. */
    method Remove(session: nat)
      requires Valid()
      modifies this`n, slots
      ensures Valid() && Contents() == Run(old(Contents()), RemoveOp(session))
    {
      hide MapOf, Sorted, BoundOf;
      ghost var c := Contents();
      RemoveMeans(c, FoundBound(c, session));
      if n == MAX_SESSION {
        return;
      }
      var id := FindClosestSlot(session);
      BoundIs(c, session, id);
      if id == n {
        return;
      }
      Delete(id);
      assert c[..id] == old(slots[..id]) && c[id + 1..] == old(slots[id + 1..n]);
    }
  }

  ghost function FoundBound(c: seq<SessionInfo>, s: nat): (k: nat)
    requires Sorted(c)
    ensures IsBound(c, s, k) && k == BoundOf(c, s)
  {
    BoundIs(c, s, BoundOf(c, s));
    BoundOf(c, s)
  }

  // ---------- runs ----------

  datatype Op = AddOp(session: nat, name: string) | RemoveOp(session: nat)

  function Run(c: seq<SessionInfo>, op: Op): seq<SessionInfo> {
    match op
    case AddOp(s, name) => Added(c, s, name, BoundOf(c, s))
    case RemoveOp(s) => Removed(c, BoundOf(c, s))
  }

  /** What a call should do to the map. */
  ghost function Should(m: map<nat, Name>, op: Op): map<nat, Name> {
    match op
    case AddOp(s, name) => if s in m then m else m[s := Stored(name)]
    case RemoveOp(s) => m - {s}
  }

  function RunAll(c: seq<SessionInfo>, ops: seq<Op>): seq<SessionInfo> {
    if ops == [] then c else Run(RunAll(c, ops[..|ops| - 1]), ops[|ops| - 1])
  }

  ghost function ShouldAll(m: map<nat, Name>, ops: seq<Op>): map<nat, Name> {
    if ops == [] then m else Should(ShouldAll(m, ops[..|ops| - 1]), ops[|ops| - 1])
  }

  /** The table is never full when a call is made, and only stored sessions are removed. */
  ghost predicate Proper(c: seq<SessionInfo>, ops: seq<Op>) {
    ops == [] ||
    (var d, op := RunAll(c, ops[..|ops| - 1]), ops[|ops| - 1];
     Proper(c, ops[..|ops| - 1]) && |d| < MAX_SESSION && (op.RemoveOp? ==> op.session in MapOf(d)))
  }

  /** Over every proper run of calls the table stays sorted and stands for the map it should. */
  lemma {:induction false} RunsAreRight(ops: seq<Op>)
    requires Proper([], ops)
    ensures Sorted(RunAll([], ops)) && MapOf(RunAll([], ops)) == ShouldAll(map[], ops)
  {
    hide MapOf, Sorted, BoundOf, Added, Removed;
    if ops == [] {
      NothingStored();
    } else {
      var init, op := ops[..|ops| - 1], ops[|ops| - 1];
      RunsAreRight(init);
      var c := RunAll([], init);
      var k := FoundBound(c, op.session);
      match op {
        case AddOp(s, name) => AddMeans(c, s, name, k);
        case RemoveOp(s) =>
          RemoveMeans(c, k);
          RemoveIsRight(c, s, k);
      }
    }
  }

  lemma NothingStored()
    ensures Sorted([]) && MapOf([]) == map[]
  {
  }

  // ---------- which calls there are ----------

  /** The sessions whose objects carry the hooked destructor: Add hooks them, and the destructor calls Remove once. */
  function Hooked(ops: seq<Op>): set<nat> {
    if ops == [] then {}
    else
      match ops[|ops| - 1]
      case AddOp(s, _) => Hooked(ops[..|ops| - 1]) + {s}
      case RemoveOp(s) => Hooked(ops[..|ops| - 1]) - {s}
  }

  /** Remove is called by the hooked destructor only. */
  predicate ByDestructor(ops: seq<Op>) {
    ops == [] ||
    (ByDestructor(ops[..|ops| - 1])
     && (ops[|ops| - 1].RemoveOp? ==> ops[|ops| - 1].session in Hooked(ops[..|ops| - 1])))
  }

  /**
   As long as the table has not been full, every call that the destructor makes finds its session stored: the
   stored sessions are the hooked ones, and the table stands for the map it should.
   */
  lemma {:induction false} DestructorRuns(ops: seq<Op>)
    requires ByDestructor(ops) && |RunAll([], ops)| < MAX_SESSION
    ensures Sorted(RunAll([], ops)) && MapOf(RunAll([], ops)) == ShouldAll(map[], ops)
    ensures MapOf(RunAll([], ops)).Keys == Hooked(ops)
    ensures Proper([], ops)
  {
    hide MapOf, Sorted, BoundOf, Added, Removed;
    if ops == [] {
      NothingStored();
    } else {
      var init, op := ops[..|ops| - 1], ops[|ops| - 1];
      var c := RunAll([], init);
      AtMostFull(init);
      if |c| == MAX_SESSION {
        FullStays(c, op);
      }
      DestructorRuns(init);
      var k := FoundBound(c, op.session);
      match op {
        case AddOp(s, name) => AddMeans(c, s, name, k);
        case RemoveOp(s) =>
          RemoveMeans(c, k);
          RemoveIsRight(c, s, k);
      }
    }
  }

  lemma {:induction false} AtMostFull(ops: seq<Op>)
    ensures |RunAll([], ops)| <= MAX_SESSION
  {
    if ops != [] {
      AtMostFull(ops[..|ops| - 1]);
    }
  }

  lemma FullStays(c: seq<SessionInfo>, op: Op)
    requires |c| == MAX_SESSION
    ensures Run(c, op) == c
  {
  }

  /** Once it is full the table never changes again: nothing is added any more, and nothing removed. */
  lemma {:induction false} FullForever(c: seq<SessionInfo>, ops: seq<Op>)
    requires |c| == MAX_SESSION
    ensures RunAll(c, ops) == c
  {
    if ops != [] {
      FullForever(c, ops[..|ops| - 1]);
    }
  }

  // ---------- inputs that show the failures ----------

  /** The table after sessions 0 to n - 1 have been added. */
  function Filled(n: nat): seq<SessionInfo> { seq(n, i requires i >= 0 => SessionInfo(i, Stored(""))) }
  function Fill(n: nat): seq<Op> { seq(n, i requires i >= 0 => AddOp(i, "")) }

  lemma FilledBound(n: nat, s: nat)
    ensures Sorted(Filled(n)) && BoundOf(Filled(n), s) == if s < n then s else n
  {
    BoundIs(Filled(n), s, if s < n then s else n);
  }

  lemma {:induction false} FillFills(n: nat)
    requires n <= MAX_SESSION
    ensures RunAll([], Fill(n)) == Filled(n)
  {
    hide MapOf, Stored, BoundOf;
    if n > 0 {
      FillFills(n - 1);
      assert Fill(n)[..n - 1] == Fill(n - 1);
      FilledBound(n - 1, n - 1);
      assert Filled(n) == Filled(n - 1) + [SessionInfo(n - 1, Stored(""))];
    } else {
      assert Fill(0) == [] && Filled(0) == [];
    }
  }

  /** After 345 sessions have been added, destroying one of them leaves it in the table. */
  lemma FullKeepsDestroyed()
    ensures var c := RunAll([], Fill(345)); 0 in MapOf(c) && 0 in MapOf(Run(c, RemoveOp(0)))
  {
    hide MapOf, Fill;
    FillFills(345);
    var c := Filled(345);
    FilledBound(345, 0);
    StoredAtBound(c, 0, 0);
  }

  /** With session 5 stored alone, looking up 3 gives the entry of 5, and removing 3 would remove 5. */
  lemma OtherSession(custom: nat -> bool)
    requires custom(5)
    ensures var c := RunAll([], [AddOp(5, "srv")]);
      && 3 !in MapOf(c) && LookedUp(c, BoundOf(c, 3), custom) == Entry(SessionInfo(5, Stored("srv")))
      && 5 in MapOf(c) && 5 !in MapOf(Run(c, RemoveOp(3)))
  {
    var e := SessionInfo(5, Stored("srv"));
    assert [AddOp(5, "srv")][..0] == [] && RunAll([], [AddOp(5, "srv")]) == [] + [e] + [] == [e];
    BoundIs([e], 3, 0);
    BoundIs([e], 5, 0);
    StoredAtBound([e], 3, 0);
    StoredAtBound([e], 5, 0);
    assert Run([e], RemoveOp(3)) == [];
  }
}
