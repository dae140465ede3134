/** Namespace prefixes while a document is written (common/xml_utils.py, serialize): the choice of the
  * root's prefix, the registration loop over the declared namespaces, and the process-wide map that is
  * saved before and put back afterwards. Binding follows section 6.2 of Namespaces in XML 1.0: the
  * default namespace must not leak from a nested element to the root. */
module XmlNamespaces {
  import opened Options
  import opened PyText

  datatype Item = Item(prefix: string, uri: string)

  /** From URI to prefix: ElementTree._namespace_map. */
  type Bindings = map<string, string>

  /** The prefixes ElementTree keeps for itself: "ns" in any case and digits. */
  predicate Reserved(prefix: string) {
    && |prefix| >= 3 && (prefix[0] == 'n' || prefix[0] == 'N') && (prefix[1] == 's' || prefix[1] == 'S')
    && forall i :: 2 <= i < |prefix| ==> '0' <= prefix[i] <= '9'
  }

  /** The URI of the root; "" stands for a root without namespace. */
  function RootPrefix(root: string, items: seq<Item>): string {
    if items == [] then ""
    else if items[0].uri != root then RootPrefix(root, items[1..])
    else if Reserved(items[0].prefix) then "" else items[0].prefix
  }

  /** register_namespace: evict the prefix and the URI, then bind. */
  function Bind(m: Bindings, prefix: string, uri: string): Bindings {
    (map u | u in m && u != uri && m[u] != prefix :: m[u])[uri := prefix]
  }

  datatype Loop = Loop(bound: Bindings, registered: set<string>, used: map<string, string>)

  /** The prefix the loop tries for an item. */
  function Wanted(item: Item, root: string, preferred: string): string {
    if root != "" && item.uri == root then preferred else item.prefix
  }

  /** Whether the loop may register the item at all, whatever came before. */
  predicate Usable(item: Item, root: string, preferred: string) {
    var p := Wanted(item, root, preferred);
    item.uri != "" && item.prefix != "xml" && (p == "" ==> item.uri == root) && !Reserved(p)
  }

  function Round(s: Loop, item: Item, root: string, preferred: string): Loop {
    var p := Wanted(item, root, preferred);
    if !Usable(item, root, preferred) || item.uri in s.registered || (p in s.used && s.used[p] != item.uri) then s
    else Loop(Bind(s.bound, p, item.uri), s.registered + {item.uri}, s.used[p := item.uri])
  }

  function Rounds(initial: Bindings, items: seq<Item>, root: string, preferred: string): Loop {
    if items == [] then Loop(initial, {}, map[])
    else Round(Rounds(initial, items[..|items| - 1], root, preferred), items[|items| - 1], root, preferred)
  }

  /** The bindings the document is written with. */
  function InForce(initial: Bindings, items: seq<Item>, root: string): Bindings {
    var preferred := RootPrefix(root, items);
    var s := Rounds(initial, items, root, preferred);
    if root != "" && root !in s.registered then Bind(s.bound, preferred, root) else s.bound
  }

  // ---------------------------------------------------------------- the code

  class NamespaceMap {
    var bound: Bindings

    constructor (initial: Bindings)
      ensures bound == initial
    {
      bound := initial;
    }

    /** ElementTree.register_namespace; false where it raises ValueError. */
    method RegisterNamespace(prefix: string, uri: string) returns (ok: bool)
      modifies this
      ensures ok == !(Reserved(prefix) && prefix[0] == 'n' && prefix[1] == 's')
      ensures bound == if ok then Bind(old(bound), prefix, uri) else old(bound)
    {
      ok := !(Reserved(prefix) && prefix[0] == 'n' && prefix[1] == 's');
      if ok {
        bound := Bind(bound, prefix, uri);
      }
    }

    method PreferredPrefix(root: string, items: seq<Item>) returns (preferred: string)
      ensures preferred == RootPrefix(root, items)
    {
      preferred := "";
      for i := 0 to |items|
        invariant preferred == "" && RootPrefix(root, items) == RootPrefix(root, items[i..])
      {
        if items[i].uri != root {
          continue;
        }
        preferred := if items[i].prefix == "" || Reserved(items[i].prefix) then "" else items[i].prefix;
        break;
      }
    }

    /** serialize: what tostring sees, or the error it raises; the map is as before either way. */
    method Serialize(root: string, items: seq<Item>, tostringRaises: bool) returns (r: Result<Bindings, string>)
      modifies this
      ensures r == if tostringRaises then Err("tostring") else Ok(InForce(old(bound), items, root))
      ensures bound == old(bound)
    {
      var preferred := PreferredPrefix(root, items);
      var previous := bound;
      var registered: set<string> := {};
      var used: map<string, string> := map[];
      assert items[..0] == [];
      for i := 0 to |items|
        invariant Loop(bound, registered, used) == Rounds(previous, items[..i], root, preferred)
      {
        assert items[..i + 1][..i] == items[..i];
        var prefix, uri := items[i].prefix, items[i].uri;
        if uri == "" || prefix == "xml" {
          continue;
        }
        if uri == root && root != "" {
          prefix := preferred;
        }
        if prefix == "" && uri != root {
          continue;
        }
        if Reserved(prefix) {
          continue;
        }
        if uri in registered {
          continue;
        }
        if prefix in used && used[prefix] != uri {
          continue;
        }
        var ok := RegisterNamespace(prefix, uri);
        if ok {
          used := used[prefix := uri];
          registered := registered + {uri};
        }
      }
      assert items[..|items|] == items;
      if root != "" && root !in registered {
        RootPrefixFree(root, items);
        var ok := RegisterNamespace(preferred, root);
      }
      r := if tostringRaises then Err("tostring") else Ok(bound);
      bound := previous;
    }
  }

  lemma {:induction false} RootPrefixFree(root: string, items: seq<Item>)
    ensures !Reserved(RootPrefix(root, items))
  {
    if items != [] && items[0].uri != root {
      RootPrefixFree(root, items[1..]);
    }
  }

  // ---------------------------------------------------------------- what is in force

  predicate Injective(m: Bindings) {
    forall u, v :: u in m && v in m && m[u] == m[v] ==> u == v
  }

  /** "" is bound to nothing but the root. */
  predicate DefaultOnlyAt(m: Bindings, root: string) {
    forall u :: u in m && m[u] == "" ==> u == root
  }

  /** Every registered URI holds its prefix alone, and was declared with it unless it is the root's. */
  predicate Held(s: Loop, items: seq<Item>, root: string, preferred: string) {
    && (forall u :: u in s.registered ==> u in s.bound && s.bound[u] in s.used && s.used[s.bound[u]] == u)
    && (forall u :: u in s.registered ==> u != "" && if u == root then s.bound[u] == preferred else Item(s.bound[u], u) in items)
    && (forall p :: p in s.used ==> s.used[p] in s.registered && s.bound[s.used[p]] == p)
  }

  /** Bindings from before stay, unless their prefix was taken. */
  predicate Kept(s: Loop, initial: Bindings) {
    && (forall u :: u in s.bound && u !in s.registered ==> u in initial && initial[u] == s.bound[u])
    && (forall u :: u in initial && u !in s.bound ==> initial[u] in s.used)
  }

  /** An item that could be registered was, or its prefix already belonged to another URI. */
  predicate Settled(s: Loop, items: seq<Item>, root: string, preferred: string) {
    forall i :: 0 <= i < |items| && Usable(items[i], root, preferred) ==> Decided(s, items[i], root, preferred)
  }

  predicate Decided(s: Loop, item: Item, root: string, preferred: string) {
    var p := Wanted(item, root, preferred);
    item.uri in s.registered || (p in s.used && s.used[p] != item.uri)
  }

  lemma {:induction false} RoundsBound(initial: Bindings, items: seq<Item>, root: string, preferred: string)
    requires Injective(initial) && DefaultOnlyAt(initial, root)
    ensures Injective(Rounds(initial, items, root, preferred).bound)
    ensures DefaultOnlyAt(Rounds(initial, items, root, preferred).bound, root)
  {
    if items != [] {
      RoundsBound(initial, items[..|items| - 1], root, preferred);
    }
  }

  lemma {:induction false} RoundsHeld(initial: Bindings, items: seq<Item>, root: string, preferred: string)
    ensures Held(Rounds(initial, items, root, preferred), items, root, preferred)
    ensures Kept(Rounds(initial, items, root, preferred), initial)
  {
    if items != [] {
      var n := |items| - 1;
      var s, item := Rounds(initial, items[..n], root, preferred), items[n];
      RoundsHeld(initial, items[..n], root, preferred);
      assert items == items[..n] + [item];
      assert item in items;
      HeldStep(s, items[..n], item, root, preferred);
      KeptStep(s, items[..n], item, root, preferred, initial);
    }
  }

  lemma {:induction false} HeldStep(s: Loop, items: seq<Item>, item: Item, root: string, preferred: string)
    requires Held(s, items, root, preferred)
    ensures Held(Round(s, item, root, preferred), items + [item], root, preferred)
  {
    var s' := Round(s, item, root, preferred);
    if s' != s {
      var p := Wanted(item, root, preferred);
      assert item in items + [item];
      assert p !in s.used;
    }
  }

  lemma {:induction false} KeptStep(s: Loop, items: seq<Item>, item: Item, root: string, preferred: string, initial: Bindings)
    requires Held(s, items, root, preferred) && Kept(s, initial)
    ensures Kept(Round(s, item, root, preferred), initial)
  {
  }

  lemma {:induction false} StaysDecided(s: Loop, items: seq<Item>, next: Item, item: Item, root: string, preferred: string)
    requires Held(s, items, root, preferred) && Decided(s, item, root, preferred)
    ensures Decided(Round(s, next, root, preferred), item, root, preferred)
  {
  }

  lemma {:induction false} RoundsSettled(initial: Bindings, items: seq<Item>, root: string, preferred: string)
    ensures Settled(Rounds(initial, items, root, preferred), items, root, preferred)
  {
    if items != [] {
      var n := |items| - 1;
      var s := Rounds(initial, items[..n], root, preferred);
      RoundsSettled(initial, items[..n], root, preferred);
      RoundsHeld(initial, items[..n], root, preferred);
      var s' := Round(s, items[n], root, preferred);
      forall i | 0 <= i < |items| && Usable(items[i], root, preferred) ensures Decided(s', items[i], root, preferred) {
        if i < n {
          assert items[..n][i] == items[i];
          StaysDecided(s, items[..n], items[n], items[i], root, preferred);
        }
      }
    }
  }

  /** No two URIs share a prefix, and no URI but the root's is written without prefix. */
  lemma {:induction false} InForceIsSound(initial: Bindings, items: seq<Item>, root: string)
    requires Injective(initial) && DefaultOnlyAt(initial, root)
    ensures Injective(InForce(initial, items, root))
    ensures DefaultOnlyAt(InForce(initial, items, root), root)
  {
    RoundsBound(initial, items, root, RootPrefix(root, items));
  }

  /** The root's URI is always bound, to the prefix it was first declared with unless that is reserved. */
  lemma {:induction false} RootIsBound(initial: Bindings, items: seq<Item>, root: string)
    requires root != ""
    ensures root in InForce(initial, items, root) && InForce(initial, items, root)[root] == RootPrefix(root, items)
    ensures var p := RootPrefix(root, items); !Reserved(p) && (p != "" ==> Item(p, root) in items)
  {
    RoundsHeld(initial, items, root, RootPrefix(root, items));
    RootPrefixFree(root, items);
    RootPrefixDeclared(root, items);
  }

  /** "ns" in letters of any case, and digits: a prefix that ElementTree keeps for itself. */
  predicate IsNumbered(prefix: string) {
    |prefix| > 2 && prefix[..2] in {"ns", "nS", "Ns", "NS"} && forall i :: 2 <= i < |prefix| ==> '0' <= prefix[i] <= '9'
  }

  lemma {:induction false} ReservedIff(prefix: string)
    ensures Reserved(prefix) <==> IsNumbered(prefix)
  {
    if |prefix| > 2 {
      assert prefix[..2] == [prefix[0], prefix[1]];
    }
  }

  /** The root is written with the first prefix it is declared with, when that is neither empty nor such a one, and
    * without a prefix otherwise. */
  lemma {:induction false} RootHasFirstPrefix(initial: Bindings, items: seq<Item>, root: string, i: nat)
    requires root != "" && i < |items| && items[i].uri == root && forall j :: 0 <= j < i ==> items[j].uri != root
    ensures root in InForce(initial, items, root)
    ensures InForce(initial, items, root)[root] == if IsNumbered(items[i].prefix) then "" else items[i].prefix
  {
    RootIsBound(initial, items, root);
    FirstDeclared(root, items, i);
    ReservedIff(items[i].prefix);
  }

  lemma {:induction false} FirstDeclared(root: string, items: seq<Item>, i: nat)
    requires i < |items| && items[i].uri == root && forall j :: 0 <= j < i ==> items[j].uri != root
    ensures RootPrefix(root, items) == if Reserved(items[i].prefix) then "" else items[i].prefix
  {
    if i > 0 {
      FirstDeclared(root, items[1..], i - 1);
    }
  }

  /** And without one when it is not declared at all. */
  lemma {:induction false} UndeclaredRoot(initial: Bindings, items: seq<Item>, root: string)
    requires root != "" && forall j :: 0 <= j < |items| ==> items[j].uri != root
    ensures root in InForce(initial, items, root) && InForce(initial, items, root)[root] == ""
  {
    RootIsBound(initial, items, root);
  }

  lemma {:induction false} RootPrefixDeclared(root: string, items: seq<Item>)
    ensures var p := RootPrefix(root, items); p != "" ==> Item(p, root) in items
  {
    if items != [] {
      if items[0].uri != root {
        RootPrefixDeclared(root, items[1..]);
      } else {
        assert items[0] == Item(items[0].prefix, root);
      }
    }
  }

  /** No URI gets a prefix from nowhere: other than the root's, a binding is a declared one or was there
    * before. */
  lemma {:induction false} NothingInvented(initial: Bindings, items: seq<Item>, root: string, u: string)
    requires u in InForce(initial, items, root) && u != root
    ensures var p := InForce(initial, items, root)[u];
            Item(p, u) in items || (u in initial && initial[u] == p)
  {
    RoundsHeld(initial, items, root, RootPrefix(root, items));
  }

  /** A declaration that may be registered is lost only to another URI that has its prefix; so when no
    * prefix is declared for two URIs, every declared URI is written with a declared prefix. */
  lemma {:induction false} DeclaredIsBound(initial: Bindings, items: seq<Item>, root: string, i: nat)
    requires i < |items| && items[i].uri != root
    requires items[i].uri != "" && items[i].prefix != "" && items[i].prefix != "xml" && !Reserved(items[i].prefix)
    requires forall j :: 0 <= j < |items| && items[j].prefix == items[i].prefix ==> items[j].uri == items[i].uri
    requires forall j :: 0 <= j < |items| && items[j].uri == items[i].uri ==> items[j].prefix != RootPrefix(root, items)
    ensures var m := InForce(initial, items, root);
            items[i].uri in m && Item(m[items[i].uri], items[i].uri) in items
  {
    var preferred := RootPrefix(root, items);
    var s := Rounds(initial, items, root, preferred);
    RoundsHeld(initial, items, root, preferred);
    RoundsSettled(initial, items, root, preferred);
    assert Usable(items[i], root, preferred);
  }

  // ---------------------------------------------------------------- threads

  /** Where a thread is in serialize: outside, past the snapshot, or holding the lock. */
  datatype Phase = Outside | Saved(snapshot: Bindings) | Inside(snapshot: Bindings)

  type Thread = nat

  datatype Process = Process(shared: Bindings, holder: Option<Thread>, phase: map<Thread, Phase>)

  datatype Event =
    | Save(t: Thread)
    | Enter(t: Thread)
    | Change(t: Thread, now: Bindings)
    | Leave(t: Thread)

  function PhaseOf(s: Process, t: Thread): Phase {
    if t in s.phase then s.phase[t] else Outside
  }

  predicate Enabled(s: Process, e: Event) {
    match e
    case Save(t) => PhaseOf(s, t).Outside?
    case Enter(t) => PhaseOf(s, t).Saved? && s.holder.None?
    case Change(t, _) => PhaseOf(s, t).Inside? && s.holder == Some(t)
    case Leave(t) => PhaseOf(s, t).Inside? && s.holder == Some(t)
  }

  function Next(s: Process, e: Event): Process
    requires Enabled(s, e)
  {
    match e
    case Save(t) => s.(phase := s.phase[t := Saved(s.shared)])
    case Enter(t) => s.(holder := Some(t), phase := s.phase[t := Inside(s.phase[t].snapshot)])
    case Change(_, now) => s.(shared := now)
    case Leave(t) => Process(s.phase[t].snapshot, None, s.phase[t := Outside])
  }

  predicate IsRun(s: Process, es: seq<Event>)
    decreases |es|
  {
    es == [] || (Enabled(s, es[0]) && IsRun(Next(s, es[0]), es[1..]))
  }

  function After(s: Process, es: seq<Event>): Process
    requires IsRun(s, es)
    decreases |es|
  {
    if es == [] then s else After(Next(s, es[0]), es[1..])
  }

  /** No snapshot is taken while a thread holds the lock. */
  predicate SavesOutsideLock(s: Process, es: seq<Event>)
    requires IsRun(s, es)
    decreases |es|
  {
    es == [] || ((es[0].Save? ==> s.holder.None?) && SavesOutsideLock(Next(s, es[0]), es[1..]))
  }

  /** Every snapshot in use is the initial map, and so is the map itself while the lock is free. */
  predicate Clean(s: Process, initial: Bindings) {
    && (s.holder.None? ==> s.shared == initial)
    && (s.holder.Some? ==> PhaseOf(s, s.holder.value).Inside?)
    && forall t :: t in s.phase ==>
         (!s.phase[t].Outside? ==> s.phase[t].snapshot == initial) && (s.phase[t].Inside? ==> s.holder == Some(t))
  }

  /** In every run whose snapshots are taken outside the lock, the map is the initial one whenever the
    * lock is free. */
  lemma {:induction false} CleanWhenFree(s: Process, es: seq<Event>, initial: Bindings)
    requires Clean(s, initial) && IsRun(s, es) && SavesOutsideLock(s, es)
    ensures Clean(After(s, es), initial)
    ensures After(s, es).holder.None? ==> After(s, es).shared == initial
    decreases |es|
  {
    if es != [] {
      CleanWhenFree(Next(s, es[0]), es[1..], initial);
    }
  }

  /** The shape every reachable state has, whatever the snapshots hold. */
  predicate WellFormed(s: Process) {
    && (s.holder.Some? ==> PhaseOf(s, s.holder.value).Inside?)
    && forall t :: t in s.phase && s.phase[t].Inside? ==> s.holder == Some(t)
  }

  lemma {:induction false} RunsAreWellFormed(s: Process, es: seq<Event>)
    requires WellFormed(s) && IsRun(s, es)
    ensures WellFormed(After(s, es))
    decreases |es|
  {
    if es != [] {
      RunsAreWellFormed(Next(s, es[0]), es[1..]);
    }
  }

  /** Letting t run through. */
  function Through(s: Process, t: Thread): seq<Event> {
    (if PhaseOf(s, t).Saved? then [Enter(t)] else []) + [Leave(t)]
  }

  /** Letting the holder leave first. */
  function Finishing(s: Process, t: Thread): seq<Event> {
    if s.holder.Some? && s.holder != Some(t) then [Leave(s.holder.value)] + Through(s, t) else Through(s, t)
  }

  lemma {:induction false} FirstEvent(s: Process, e: Event, es: seq<Event>)
    requires Enabled(s, e) && IsRun(Next(s, e), es)
    ensures IsRun(s, [e] + es) && After(s, [e] + es) == After(Next(s, e), es)
  {
    assert ([e] + es)[1..] == es;
  }

  lemma {:induction false} OneEvent(s: Process, e: Event)
    requires Enabled(s, e)
    ensures IsRun(s, [e]) && After(s, [e]) == Next(s, e)
  {
    FirstEvent(s, e, []);
    assert [e] + [] == [e];
  }

  lemma {:induction false} RunsThrough(s: Process, t: Thread)
    requires WellFormed(s) && !PhaseOf(s, t).Outside? && (s.holder.None? || s.holder == Some(t))
    ensures IsRun(s, Through(s, t))
    ensures After(s, Through(s, t)).holder.None? && After(s, Through(s, t)).shared == PhaseOf(s, t).snapshot
  {
    if PhaseOf(s, t).Saved? {
      OneEvent(Next(s, Enter(t)), Leave(t));
      FirstEvent(s, Enter(t), [Leave(t)]);
    } else {
      OneEvent(s, Leave(t));
      assert [] + [Leave(t)] == [Leave(t)];
    }
  }

  /** A thread that holds a snapshot puts it back: the map then is that snapshot with the lock free. So a
    * snapshot taken under another thread's lock, when it differs from the initial map, outlives the lock. */
  lemma {:induction false} SnapshotComesBack(s: Process, t: Thread)
    requires WellFormed(s) && !PhaseOf(s, t).Outside?
    ensures IsRun(s, Finishing(s, t))
    ensures var s' := After(s, Finishing(s, t));
            s'.holder.None? && s'.shared == PhaseOf(s, t).snapshot
  {
    if s.holder.Some? && s.holder != Some(t) {
      var s1 := Next(s, Leave(s.holder.value));
      assert PhaseOf(s1, t) == PhaseOf(s, t);
      RunsThrough(s1, t);
      FirstEvent(s, Leave(s.holder.value), Through(s, t));
    } else {
      RunsThrough(s, t);
    }
  }

  /** Every snapshot is taken of the initial map. */
  predicate SavesInitial(s: Process, es: seq<Event>, initial: Bindings)
    requires IsRun(s, es)
    decreases |es|
  {
    es == [] || ((es[0].Save? ==> s.shared == initial) && SavesInitial(Next(s, es[0]), es[1..], initial))
  }

  predicate NoSaves(es: seq<Event>) {
    forall i :: 0 <= i < |es| ==> !es[i].Save?
  }

  lemma {:induction false} CleanSaves(s: Process, es: seq<Event>, initial: Bindings)
    requires Clean(s, initial) && IsRun(s, es) && SavesInitial(s, es, initial)
    ensures Clean(After(s, es), initial)
    decreases |es|
  {
    if es != [] {
      CleanSaves(Next(s, es[0]), es[1..], initial);
    }
  }

  lemma {:induction false} NoSavesInitial(s: Process, es: seq<Event>, initial: Bindings)
    requires IsRun(s, es) && NoSaves(es)
    ensures SavesInitial(s, es, initial)
    decreases |es|
  {
    if es != [] {
      NoSavesInitial(Next(s, es[0]), es[1..], initial);
    }
  }

  /** From here on, whatever the threads that are under way do, the initial map is back once the lock is free. */
  predicate Recovers(s: Process, more: seq<Event>, initial: Bindings) {
    IsRun(s, more) && NoSaves(more) && After(s, more).holder.None? ==> After(s, more).shared == initial
  }

  ghost predicate AlwaysRecovers(s: Process, initial: Bindings) {
    forall more :: Recovers(s, more, initial)
  }

  lemma {:induction false} CleanRecovers(s: Process, initial: Bindings)
    requires Clean(s, initial)
    ensures AlwaysRecovers(s, initial)
  {
    forall more ensures Recovers(s, more, initial) {
      if IsRun(s, more) && NoSaves(more) {
        NoSavesInitial(s, more, initial);
        CleanSaves(s, more, initial);
      }
    }
  }

  /** A thread that has saved another map can bring it back. */
  lemma {:induction false} DirtyNeverRecovers(s: Process, t: Thread, initial: Bindings)
    requires WellFormed(s) && !PhaseOf(s, t).Outside? && PhaseOf(s, t).snapshot != initial
    ensures !AlwaysRecovers(s, initial)
  {
    SnapshotComesBack(s, t);
    assert NoSaves(Finishing(s, t));
    assert !Recovers(s, Finishing(s, t), initial);
  }

  /** At every point of the run the initial map comes back. */
  ghost predicate RecoversThroughout(s: Process, es: seq<Event>, initial: Bindings)
    requires IsRun(s, es)
    decreases |es|
  {
    AlwaysRecovers(s, initial) && (es == [] || RecoversThroughout(Next(s, es[0]), es[1..], initial))
  }

  /** Over every run from a clean start: the initial map comes back from every point of it, whenever the lock is
    * free again, exactly when every snapshot is taken of the initial map. */
  lemma {:induction false} CleanIff(s: Process, es: seq<Event>, initial: Bindings)
    requires Clean(s, initial) && IsRun(s, es)
    ensures RecoversThroughout(s, es, initial) <==> SavesInitial(s, es, initial)
    decreases |es|
  {
    CleanRecovers(s, initial);
    if es != [] {
      var s', e := Next(s, es[0]), es[0];
      if e.Save? && s.shared != initial {
        DirtyNeverRecovers(s', e.t, initial);
      } else {
        CleanIff(s', es[1..], initial);
      }
    }
  }

  /** Two threads: the second takes its snapshot while the first has changed the map, and leaves the
    * changed map behind for good. */
  lemma {:induction false} SaveUnderLockLeaks(initial: Bindings, changed: Bindings)
    ensures var s := Process(initial, None, map[]);
            var es := [Save(0), Enter(0), Change(0, changed), Save(1), Leave(0), Enter(1), Leave(1)];
            IsRun(s, es) && After(s, es).holder.None? && After(s, es).shared == changed
  {
    var s := Process(initial, None, map[]);
    var first := [Save(0), Enter(0), Change(0, changed), Save(1)];
    var s1 := Next(s, Save(0));
    var s2 := Next(s1, Enter(0));
    var s3 := Next(s2, Change(0, changed));
    var s4 := Next(s3, Save(1));
    SnapshotComesBack(s4, 1);
    assert Finishing(s4, 1) == [Leave(0), Enter(1), Leave(1)];
    Prepend(s3, Save(1), Finishing(s4, 1));
    Prepend(s2, Change(0, changed), [Save(1)] + Finishing(s4, 1));
    Prepend(s1, Enter(0), [Change(0, changed)] + ([Save(1)] + Finishing(s4, 1)));
    Prepend(s, Save(0), [Enter(0)] + ([Change(0, changed)] + ([Save(1)] + Finishing(s4, 1))));
    assert [Save(0), Enter(0), Change(0, changed), Save(1), Leave(0), Enter(1), Leave(1)]
           == [Save(0)] + ([Enter(0)] + ([Change(0, changed)] + ([Save(1)] + Finishing(s4, 1))));
  }

  lemma {:induction false} Prepend(s: Process, e: Event, es: seq<Event>)
    requires Enabled(s, e) && IsRun(Next(s, e), es)
    ensures IsRun(s, [e] + es) && After(s, [e] + es) == After(Next(s, e), es)
  {
    assert ([e] + es)[1..] == es;
  }
}
