/** The table of hooked kernel sessions, kept sorted by session address. */
module SessionTable {

  const MAX_SESSION: nat := 345

  /** An entry: the address of the session and the twelve characters of its name; address 0 is NULL. */
  datatype Info = Info(session: nat, name: seq<char>)

  const NO_INFO := Info(0, seq(12, _ => '\0'))

  /** `strncpy` of at most twelve characters, the rest filled with NULs. */
  function Name12(name: string): (r: seq<char>)
    ensures |r| == 12
  {
    if |name| >= 12 then name[..12] else name + seq(12 - |name|, _ => '\0')
  }

  predicate IsBlank(e: Info) {
    e.session == 0 && |e.name| == 12 && forall k :: 0 <= k < 12 ==> e.name[k] == '\0'
  }

  predicate Sorted(t: seq<Info>) {
    forall i, j :: 0 <= i < j < |t| ==> t[i].session < t[j].session
  }

  predicate Stored(t: seq<Info>, s: nat) {
    exists i :: 0 <= i < |t| && t[i].session == s
  }

  /** The number of leading entries below s: where s is in a sorted table, or would go. */
  function LowerBound(t: seq<Info>, s: nat): (id: nat)
    ensures id <= |t|
    ensures forall i :: 0 <= i < id ==> t[i].session < s
    ensures id < |t| ==> s <= t[id].session
  {
    if t == [] || s <= t[0].session then 0 else 1 + LowerBound(t[1..], s)
  }

  lemma AtLowerBound(t: seq<Info>, s: nat)
    requires Sorted(t)
    ensures forall i :: LowerBound(t, s) <= i < |t| ==> s <= t[i].session
    ensures Stored(t, s) <==> LowerBound(t, s) < |t| && t[LowerBound(t, s)].session == s
  {
  }

  /** One comparison on each side, or an equal entry, is enough to know the lower bound. */
  lemma LowerBoundIs(t: seq<Info>, s: nat, id: nat)
    requires Sorted(t) && id <= |t|
    requires id < |t| ==> s <= t[id].session
    requires (id < |t| && s == t[id].session) || id == 0 || t[id - 1].session < s
    ensures LowerBound(t, s) == id
  {
    AtLowerBound(t, s);
  }

  // ----- what the calls do to the table

  /** A full table takes nothing more; a session that is there keeps its entry. */
  function Add(t: seq<Info>, s: nat, name: string): seq<Info> {
    var id := LowerBound(t, s);
    if |t| == MAX_SESSION || (id < |t| && t[id].session == s) then t
    else t[..id] + [Info(s, Name12(name))] + t[id..]
  }

  /** A full table loses nothing; otherwise the entry at the lower bound of s goes, whatever session it
      belongs to. */
  function Remove(t: seq<Info>, s: nat): seq<Info> {
    var id := LowerBound(t, s);
    if |t| == MAX_SESSION || id == |t| then t else t[..id] + t[id + 1..]
  }

  lemma AddKeepsSorted(t: seq<Info>, s: nat, name: string)
    requires Sorted(t) && |t| <= 345
    ensures Sorted(Add(t, s, name)) && |Add(t, s, name)| <= 345
  {
    AtLowerBound(t, s);
    var id := LowerBound(t, s);
    hide LowerBound;
    if |t| < MAX_SESSION && !(id < |t| && t[id].session == s) { InsertSorted(t, id, Info(s, Name12(name))); }
  }

  lemma InsertSorted(t: seq<Info>, id: nat, e: Info)
    requires Sorted(t) && id <= |t|
    requires forall i :: 0 <= i < id ==> t[i].session < e.session
    requires forall i :: id <= i < |t| ==> e.session < t[i].session
    ensures Sorted(t[..id] + [e] + t[id..])
  {
    var r := t[..id] + [e] + t[id..];
    forall i, j | 0 <= i < j < |r|
      ensures r[i].session < r[j].session
    {
      assert i != id ==> r[i] == t[if i < id then i else i - 1];
      assert j != id ==> r[j] == t[if j < id then j else j - 1];
    }
  }

  /** Below the limit, adding stores the session and nothing else changes. */
  lemma AddStores(t: seq<Info>, s: nat, name: string, k: nat)
    requires Sorted(t) && |t| < 345
    ensures Stored(Add(t, s, name), k) <==> k == s || Stored(t, k)
  {
    AtLowerBound(t, s);
    if !Stored(t, s) { InsertStored(t, LowerBound(t, s), Info(s, Name12(name)), k); }
  }

  /** The whole entry: a new one has the first twelve characters of the name, or the name and NULs; all others
      are the ones there were. */
  lemma AddedEntries(t: seq<Info>, s: nat, name: string, e: Info)
    requires Sorted(t) && |t| < 345 && !Stored(t, s)
    ensures e in Add(t, s, name) <==>
            || e in t
            || (&& e.session == s && |e.name| == 12
                && forall i :: 0 <= i < 12 ==> e.name[i] == if i < |name| then name[i] else '\0')
  {
    AtLowerBound(t, s);
    var id := LowerBound(t, s);
    hide LowerBound, Sorted, Stored, Name12;
    NameIs(name, e.name);
    InsertedEntry(t, id, Info(s, Name12(name)), e);
  }

  lemma InsertedEntry(t: seq<Info>, id: nat, added: Info, e: Info)
    requires id <= |t|
    ensures e in t[..id] + [added] + t[id..] <==> e in t || e == added
  {
    assert t == t[..id] + t[id..];
  }

  lemma NameIs(name: string, n: seq<char>)
    ensures n == Name12(name) <==>
            |n| == 12 && forall i :: 0 <= i < 12 ==> n[i] == if i < |name| then name[i] else '\0'
  {
  }

  /** And removing a stored session keeps the other entries as they are. */
  lemma RemainingEntries(t: seq<Info>, s: nat, e: Info)
    requires Sorted(t) && |t| < 345 && Stored(t, s)
    ensures e in Remove(t, s) <==> e in t && e.session != s
  {
    AtLowerBound(t, s);
    var id := LowerBound(t, s);
    hide LowerBound;
    assert t == t[..id] + [t[id]] + t[id + 1..];
  }

  lemma InsertStored(t: seq<Info>, id: nat, e: Info, k: nat)
    requires id <= |t|
    ensures Stored(t[..id] + [e] + t[id..], k) <==> k == e.session || Stored(t, k)
  {
    var t' := t[..id] + [e] + t[id..];
    assert t'[id] == e;
    if Stored(t, k) {
      var i :| 0 <= i < |t| && t[i].session == k;
      assert t'[if i < id then i else i + 1] == t[i];
    }
    if Stored(t', k) && k != e.session {
      var i :| 0 <= i < |t'| && t'[i].session == k;
      assert t'[i] == t[if i < id then i else i - 1];
    }
  }

  lemma DeleteStored(t: seq<Info>, id: nat, k: nat)
    requires Sorted(t) && id < |t|
    ensures Stored(t[..id] + t[id + 1..], k) <==> k != t[id].session && Stored(t, k)
  {
    var t' := t[..id] + t[id + 1..];
    if Stored(t, k) && k != t[id].session {
      var i :| 0 <= i < |t| && t[i].session == k;
      assert t'[if i < id then i else i - 1] == t[i];
    }
    if Stored(t', k) {
      var i :| 0 <= i < |t'| && t'[i].session == k;
      assert t'[i] == t[if i < id then i else i + 1];
    }
  }

  lemma RemoveKeepsSorted(t: seq<Info>, s: nat)
    requires Sorted(t) && |t| <= 345
    ensures Sorted(Remove(t, s)) && |Remove(t, s)| <= 345
  {
  }

  /** Below the limit, removing a stored session takes exactly its own entry. */
  lemma RemoveTakesOwn(t: seq<Info>, s: nat, k: nat)
    requires Sorted(t) && |t| < 345 && Stored(t, s)
    ensures Stored(Remove(t, s), k) <==> k != s && Stored(t, k)
    ensures |Remove(t, s)| == |t| - 1
  {
    AtLowerBound(t, s);
    DeleteStored(t, LowerBound(t, s), k);
  }

  /** The stored session that follows s: the least one above it. */
  ghost predicate NextAbove(t: seq<Info>, s: nat, next: nat) {
    Stored(t, next) && s < next && forall k :: s < k < next ==> !Stored(t, k)
  }

  /** The entry at the lower bound of a session that is not stored is the one of the next higher session. */
  lemma NextAtLowerBound(t: seq<Info>, s: nat)
    requires Sorted(t) && !Stored(t, s)
    ensures var id := LowerBound(t, s);
            && (id < |t| ==> NextAbove(t, s, t[id].session))
            && (id == |t| <==> forall i :: 0 <= i < |t| ==> t[i].session < s)
  {
    AtLowerBound(t, s);
    var id := LowerBound(t, s);
    if id < |t| {
      assert Stored(t, t[id].session);
      forall m | s < m < t[id].session
        ensures !Stored(t, m)
      {
        AtLowerBound(t, m);
      }
    }
  }

  /** Below the limit, removing a session that is not stored would take exactly the entry of the next higher one, and
      nothing if there is none: the function never compares the addresses. No run calls it that way. */
  lemma StrangerTakesNeighbour(t: seq<Info>, s: nat, next: nat, k: nat)
    requires Sorted(t) && |t| < 345 && !Stored(t, s)
    ensures NextAbove(t, s, next) ==> (Stored(Remove(t, s), k) <==> k != next && Stored(t, k))
    ensures Remove(t, s) == t <==> forall i :: 0 <= i < |t| ==> t[i].session < s
    ensures Remove(t, s) != t ==> NextAbove(t, s, t[LowerBound(t, s)].session)
  {
    NextAtLowerBound(t, s);
    var id := LowerBound(t, s);
    if id < |t| {
      DeleteStored(t, id, k);
      if NextAbove(t, s, next) { assert next == t[id].session; }
    }
  }

  // ----- runs

  /** The table and the sessions that have been hooked and not destroyed yet. */
  datatype World = World(table: seq<Info>, live: set<nat>)

  datatype Event = Hook(session: nat, name: string) | Destroy(session: nat)

  /** Sessions are destroyed once, and only those hooked run the hooked destructor. */
  predicate Possible(w: World, e: Event) {
    e.Hook? || e.session in w.live
  }

  function Next(w: World, e: Event): World {
    match e
    case Hook(s, name) => World(Add(w.table, s, name), w.live + {s})
    case Destroy(s) => World(Remove(w.table, s), w.live - {s})
  }

  /** Sorted without duplicates and, until the table has once been full, an entry for just the live
      sessions. */
  ghost predicate Good(w: World) {
    && Sorted(w.table)
    && |w.table| <= 345
    && (|w.table| < 345 ==> forall s :: Stored(w.table, s) <==> s in w.live)
  }

  lemma NextIsGood(w: World, e: Event)
    requires Good(w) && Possible(w, e)
    ensures Good(Next(w, e))
    ensures |w.table| == 345 ==> Next(w, e).table == w.table
    ensures e.Destroy? && |w.table| < 345 ==>
              forall k :: Stored(Next(w, e).table, k) <==> k != e.session && Stored(w.table, k)
  {
    match e
    case Hook(s, name) =>
      AddKeepsSorted(w.table, s, name);
      if |w.table| < MAX_SESSION {
        forall k ensures Stored(Add(w.table, s, name), k) <==> k == s || Stored(w.table, k) {
          AddStores(w.table, s, name, k);
        }
      }
    case Destroy(s) =>
      RemoveKeepsSorted(w.table, s);
      if |w.table| < MAX_SESSION {
        forall k ensures Stored(Remove(w.table, s), k) <==> k != s && Stored(w.table, k) {
          RemoveTakesOwn(w.table, s, k);
        }
      }
  }

  ghost predicate IsRun(ws: seq<World>, es: seq<Event>) {
    && |ws| == |es| + 1
    && forall i :: 0 <= i < |es| ==> Possible(ws[i], es[i]) && ws[i + 1] == Next(ws[i], es[i])
  }

  /** Over every run the table stays good, each destructor takes exactly its own session or finds the table
      full, and a full table is full for good. */
  lemma {:induction false} RunsAreGood(ws: seq<World>, es: seq<Event>, i: nat)
    requires IsRun(ws, es) && ws[0] == World([], {}) && i <= |es|
    ensures Good(ws[i])
    ensures forall j :: 0 <= j <= i && |ws[j].table| == 345 ==> ws[i].table == ws[j].table
    ensures i < |es| && es[i].Destroy? && |ws[i].table| < 345 ==>
              forall k :: Stored(ws[i + 1].table, k) <==> k != es[i].session && Stored(ws[i].table, k)
  {
    if i > 0 {
      RunsAreGood(ws, es, i - 1);
      NextIsGood(ws[i - 1], es[i - 1]);
      assert ws[i - 1 + 1] == Next(ws[i - 1], es[i - 1]);
    }
    if i < |es| { NextIsGood(ws[i], es[i]); }
  }

  /** While the table has never been full, a session's own entry is at its lower bound exactly if it is live. */
  lemma OwnEntryIffLive(w: World, s: nat)
    requires Good(w) && |w.table| < 345
    ensures s in w.live <==> var id := LowerBound(w.table, s); id < |w.table| && w.table[id].session == s
  {
    AtLowerBound(w.table, s);
  }

  /** Events each of which is possible when its turn comes. */
  ghost predicate AllPossible(w: World, es: seq<Event>)
    decreases |es|
  {
    es == [] || (Possible(w, es[0]) && AllPossible(Next(w, es[0]), es[1..]))
  }

  lemma InsertedIs(t: seq<Info>, u: seq<Info>, id: nat, e: Info)
    requires id <= |t| && |u| == |t| + 1 && u[id] == e
    requires forall k :: 0 <= k < id ==> u[k] == t[k]
    requires forall k :: id < k < |u| ==> u[k] == t[k - 1]
    ensures u == t[..id] + [e] + t[id..]
  {
  }

  lemma DeletedIs(t: seq<Info>, u: seq<Info>, id: nat)
    requires id < |t| && |u| == |t| - 1
    requires forall k :: 0 <= k < id ==> u[k] == t[k]
    requires forall k :: id <= k < |u| ==> u[k] == t[k + 1]
    ensures u == t[..id] + t[id + 1..]
  {
  }

  // ----- the table in place

  class Table {
    const infos: array<Info>
    var nb: nat
    /** The sessions whose vtable pointer is the custom one. */
    var hooked: set<nat>

    ghost predicate Valid()
      reads this, infos
    {
      && infos.Length == 345 && nb <= 345 && Sorted(infos[..nb])
      && forall i :: nb <= i < 345 ==> IsBlank(infos[i])
    }

    ghost function Entries(): seq<Info>
      reads this, infos
      requires nb <= infos.Length
    {
      infos[..nb]
    }

    constructor ()
      ensures Valid() && fresh(infos) && Entries() == [] && hooked == {}
    {
      infos := new Info[MAX_SESSION](_ => NO_INFO);
      nb, hooked := 0, {};
    }

    /** Binary search for the lower bound. */
    method FindClosestSlot(session: nat) returns (id: nat)
      requires Valid()
      ensures id == LowerBound(Entries(), session)
    {
      hide Sorted, LowerBound;
      ghost var t := infos[..nb];
      assert forall i :: 0 <= i < nb ==> t[i] == infos[i];
      if nb == 0 || session <= infos[0].session {
        LowerBoundIs(t, session, 0);
        return 0;
      } else if session > infos[nb - 1].session {
        LowerBoundIs(t, session, nb);
        return nb;
      }
      var a, b := 0, nb - 1;
      while true
        invariant 0 <= a <= b < nb
        invariant t[a].session < session <= t[b].session
        decreases b - a
      {
        var m := (a + b) / 2;
        if infos[m].session < session {
          a := m;
        } else if infos[m].session > session {
          b := m;
        } else {
          LowerBoundIs(t, session, m);
          return m;
        }
        if !(b - a > 1) { break; }
      }
      assert b == a + 1;
      LowerBoundIs(t, session, b);
      id := b;
    }

    /** The entry at the lower bound, when its session is hooked: for a stored and hooked session its own. */
    method Lookup(session: nat) returns (found: bool, info: Info)
      requires Valid()
      ensures var t, id := Entries(), LowerBound(Entries(), session);
              found == (id < |t| && t[id].session in hooked) && (found ==> info == t[id])
      ensures Stored(Entries(), session) && session in hooked ==> found && info.session == session
    {
      var id := FindClosestSlot(session);
      AtLowerBound(Entries(), session);
      if id == nb { return false, NO_INFO; }
      found, info := infos[id].session in hooked, infos[id];
    }

    /** Makes room at slot id by moving the entries behind it up. */
    method InsertAt(id: nat, e: Info)
      requires infos.Length == 345 && id <= nb < 345
      modifies this`nb, infos
      ensures nb == old(nb) + 1 && Entries() == old(Entries())[..id] + [e] + old(Entries())[id..]
      ensures forall i :: nb <= i < 345 ==> infos[i] == old(infos[i])
    {
      ghost var t := infos[..nb];
      var i := nb;
      while i > id && i != 0
        invariant id <= i <= nb && nb == |t| < MAX_SESSION
        invariant forall k :: 0 <= k < i ==> infos[k] == t[k]
        invariant forall k :: i < k <= nb ==> infos[k] == t[k - 1]
        invariant forall k :: nb < k < 345 ==> infos[k] == old(infos[k])
      {
        infos[i] := infos[i - 1];
        i := i - 1;
      }
      nb := nb + 1;
      infos[id] := e;
      InsertedIs(t, infos[..nb], id, e);
    }

    /** `SessionInfo_Add`: hook the session, then store it. */
    method AddSession(session: nat, name: string)
      requires Valid()
      modifies this, infos
      ensures Valid() && Entries() == Add(old(Entries()), session, name)
      ensures hooked == old(hooked) + {session}
    {
      hide Sorted;
      hide Stored;
      hide LowerBound;
      hooked := hooked + {session};
      AddKeepsSorted(Entries(), session, name);
      if nb == MAX_SESSION { return; }
      var id := FindClosestSlot(session);
      if id != nb && infos[id].session == session { return; }
      InsertAt(id, Info(session, Name12(name)));
    }

    /** Moves the entries behind slot id down and clears the last one. */
    method DeleteAt(id: nat)
      requires infos.Length == 345 && id < nb <= 345
      modifies this`nb, infos
      ensures nb == old(nb) - 1 && Entries() == old(Entries())[..id] + old(Entries())[id + 1..]
      ensures forall i :: nb <= i < 345 ==> if i == nb then IsBlank(infos[i]) else infos[i] == old(infos[i])
    {
      ghost var t := infos[..nb];
      var i := id;
      while i < nb - 1
        invariant id <= i <= nb - 1 && nb == |t| <= MAX_SESSION
        invariant forall k :: 0 <= k < id ==> infos[k] == t[k]
        invariant forall k :: id <= k < i ==> infos[k] == t[k + 1]
        invariant forall k :: i < k < nb ==> infos[k] == t[k]
        invariant forall k :: nb <= k < 345 ==> infos[k] == old(infos[k])
      {
        infos[i] := infos[i + 1];
        i := i + 1;
      }
      nb := nb - 1;
      infos[nb] := NO_INFO;
      DeletedIs(t, infos[..nb], id);
    }

    /** `SessionInfo_Remove`. */
    method RemoveSession(session: nat)
      requires Valid()
      modifies this`nb, infos
      ensures Valid() && Entries() == Remove(old(Entries()), session)
    {
      hide Sorted, Stored, LowerBound;
      RemoveKeepsSorted(Entries(), session);
      if nb == MAX_SESSION { return; }
      var id := FindClosestSlot(session);
      if id == nb { return; }
      DeleteAt(id);
    }

    /** `KSession__dtor_hook`: the original destructor has run; the session is forgotten. */
    method DestructorHook(session: nat)
      requires Valid()
      modifies this, infos
      ensures Valid() && Entries() == Remove(old(Entries()), session) && hooked == old(hooked) - {session}
    {
      hooked := hooked - {session};
      RemoveSession(session);
    }

    /** The table as a state of a run, the hooked sessions being the live ones. */
    ghost function Seen(): World
      reads this, infos
      requires nb <= infos.Length
    {
      World(Entries(), hooked)
    }
  }

  /** Any possible sequence of events on the real table is a run. */
  method Play(t: Table, es: seq<Event>) returns (ghost ws: seq<World>)
    requires t.Valid() && AllPossible(t.Seen(), es)
    modifies t, t.infos
    ensures t.Valid() && IsRun(ws, es)
    ensures ws[0] == old(t.Seen()) && ws[|es|] == t.Seen()
  {
    hide Sorted, LowerBound, Add, Remove;
    ws := [t.Seen()];
    for i := 0 to |es|
      invariant t.Valid() && |ws| == i + 1 && IsRun(ws, es[..i])
      invariant ws[0] == old(t.Seen()) && ws[i] == t.Seen() && AllPossible(ws[i], es[i..])
    {
      match es[i] {
        case Hook(s, name) => t.AddSession(s, name);
        case Destroy(s) => t.DestructorHook(s);
      }
      assert t.Seen() == Next(ws[i], es[i]);
      assert es[i..][0] == es[i] && es[i..][1..] == es[i + 1..];
      ws := ws + [t.Seen()];
      assert es[..i + 1] == es[..i] + [es[i]];
    }
    assert es[..|es|] == es;
  }

  /** Until the table has been full: a session that is not live has the entry of the next higher live one at its
      lower bound, if there is one. */
  lemma StrangerSeesNeighbour(w: World, s: nat)
    requires Good(w) && |w.table| < 345 && s !in w.live
    ensures var id := LowerBound(w.table, s);
            && (id < |w.table| <==> exists k :: k in w.live && s < k)
            && (id < |w.table| ==> w.table[id].session in w.live && NextAbove(w.table, s, w.table[id].session))
  {
    var t, id := w.table, LowerBound(w.table, s);
    NextAtLowerBound(t, s);
    if id < |t| {
      assert Stored(t, t[id].session);
    } else {
      forall k | k in w.live
        ensures k < s
      {
        assert Stored(t, k);
      }
    }
  }

  /** From an empty table, through any possible events, unless the table has been full: a lookup of a live session
      finds its own entry. A lookup of any other session finds the entry of the next higher live session, and nothing
      only if there is none. */
  method PlayThenLookup(t: Table, es: seq<Event>, session: nat) returns (found: bool, info: Info)
    requires t.Valid() && t.Entries() == [] && t.hooked == {} && AllPossible(t.Seen(), es)
    modifies t, t.infos
    ensures t.Valid() && Good(t.Seen())
    ensures t.nb < 345 ==> (session in t.hooked <==> found && info.session == session)
    ensures t.nb < 345 && session !in t.hooked ==> (found <==> exists k :: k in t.hooked && session < k)
    ensures t.nb < 345 && session !in t.hooked && found ==> NextAbove(t.Entries(), session, info.session)
  {
    hide Sorted, Add, Remove;
    ghost var ws := Play(t, es);
    RunsAreGood(ws, es, |es|);
    if t.nb < MAX_SESSION {
      OwnEntryIffLive(t.Seen(), session);
      AtLowerBound(t.Entries(), session);
      if session !in t.hooked { StrangerSeesNeighbour(t.Seen(), session); }
    }
    found, info := t.Lookup(session);
  }
}
