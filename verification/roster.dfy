/**
 * The level's rosters: the ordered list of online players and the list of
 * entities, with lookup, removal, the join handshake and chat fan-out. The
 * lock around removal and the snapshot taken before iteration are concurrency
 * plumbing; every operation here is one atomic step on an immutable sequence.
 */
module Roster {
  import opened Wrappers
  import opened Seqs
  import opened Players

  /** `GetPlayer`: the first player, in roster order, whose entity id is `entityId`. */
  function GetPlayer(ps: seq<Player>, entityId: int): (r: Option<Player>)
    ensures r.None? <==> forall i :: 0 <= i < |ps| ==> ps[i].entityId != entityId
    ensures r.Some? ==> r.value in ps && r.value.entityId == entityId
    ensures forall i :: (0 <= i < |ps| && ps[i].entityId == entityId
                         && (forall j :: 0 <= j < i ==> ps[j].entityId != entityId)) ==> r == Some(ps[i])
  {
    if |ps| == 0 then None
    else if ps[0].entityId == entityId then Some(ps[0])
    else
      var r := GetPlayer(ps[1..], entityId);
      assert forall i :: 1 <= i < |ps| ==> ps[i] == ps[1..][i - 1];
      r
  }

  /** `List.Remove`: drop the first occurrence of `x`, if there is one. */
  function Remove<T(==)>(s: seq<T>, x: T): (r: seq<T>)
    ensures x !in s ==> r == s
    ensures x in s ==> |r| == |s| - 1
    ensures multiset(r) == multiset(s) - multiset{x}
  {
    if |s| == 0 then []
    else
      assert s == [s[0]] + s[1..];
      if s[0] == x then s[1..] else [s[0]] + Remove(s[1..], x)
  }

  /** The removed element is the first occurrence: the result is `s` with position `i` cut out. */
  lemma {:induction false} RemoveCutsFirst<T>(s: seq<T>, x: T, i: nat)
    requires i < |s| && s[i] == x && x !in s[..i]
    ensures Remove(s, x) == s[..i] + s[i + 1..]
  {
    if i > 0 {
      var t := s[1..];
      assert s[..i] == [s[0]] + s[1..i];
      assert t[..i - 1] == s[1..i];
      assert s[0] != x;
      RemoveCutsFirst(t, x, i - 1);
      assert Remove(s, x) == [s[0]] + Remove(t, x);
      assert t[i - 1 + 1..] == s[i + 1..];
    }
  }

  /** Every first occurrence is the one `Remove` cuts out. */
  lemma RemoveCutsFirstAll<T>(s: seq<T>, x: T)
    ensures forall i :: 0 <= i < |s| && s[i] == x && x !in s[..i] ==> Remove(s, x) == s[..i] + s[i + 1..]
  {
    forall i | 0 <= i < |s| && s[i] == x && x !in s[..i] ensures Remove(s, x) == s[..i] + s[i + 1..] {
      RemoveCutsFirst(s, x, i);
    }
  }

  /** `RemovePlayer`: the roster without the first occurrence of `p`. */
  function RemovePlayer(ps: seq<Player>, p: Player): (r: seq<Player>)
    ensures p !in ps ==> r == ps
    ensures p in ps ==> |r| == |ps| - 1 && multiset(r) == multiset(ps) - multiset{p}
    ensures IsSubsequence(r, ps)
    ensures forall i :: 0 <= i < |ps| && ps[i] == p && p !in ps[..i] ==> r == ps[..i] + ps[i + 1..]
  {
    RemoveIsSubsequence(ps, p);
    RemoveCutsFirstAll(ps, p);
    Remove(ps, p)
  }

  /** `AddEntity`: append to the entity list. */
  function AddEntity(es: seq<Entity>, e: Entity): (r: seq<Entity>)
    ensures multiset(r) == multiset(es) + multiset{e}
    ensures |r| == |es| + 1
    ensures r[..|es|] == es && r[|es|] == e
  {
    es + [e]
  }

  /** `RemoveEntity`: remove the first occurrence of `e` when the list contains it. */
  function RemoveEntity(es: seq<Entity>, e: Entity): (r: seq<Entity>)
    ensures e !in es ==> r == es
    ensures e in es ==> |r| == |es| - 1 && multiset(r) == multiset(es) - multiset{e}
    ensures forall i :: 0 <= i < |es| && es[i] == e && e !in es[..i] ==> r == es[..i] + es[i + 1..]
  {
    RemoveCutsFirstAll(es, e);
    if e in es then Remove(es, e) else es
  }

  /** Removal keeps the order of the remaining elements. */
  lemma {:induction false} RemoveIsSubsequence<T>(s: seq<T>, x: T)
    ensures IsSubsequence(Remove(s, x), s)
  {
    if |s| > 0 {
      if s[0] == x {
        SubsequenceReflexive(s[1..]);
        SubsequenceCons(s[1..], s[0], s[1..]);
        assert [s[0]] + s[1..] == s;
      } else {
        RemoveIsSubsequence(s[1..], x);
        assert ([s[0]] + Remove(s[1..], x))[1..] == Remove(s[1..], x);
      }
    }
  }

  /** Appending an element and removing it again restores a list that did not contain it. */
  lemma AddThenRemove<T>(s: seq<T>, x: T)
    requires x !in s
    ensures Remove(s + [x], x) == s
  {
    assert (s + [x])[..|s|] == s;
    RemoveCutsFirst(s + [x], x, |s|);
  }

  /** No two players of the roster share an entity id. */
  predicate UniqueIds(ps: seq<Player>)
  {
    forall i, j :: 0 <= i < j < |ps| ==> ps[i].entityId != ps[j].entityId
  }

  /** With unique ids, a joined player is found by its id, and is no longer found once removed. */
  lemma {:induction false} LookupAfterJoinAndLeave(ps: seq<Player>, p: Player)
    requires UniqueIds(ps + [p])
    ensures GetPlayer(ps + [p], p.entityId) == Some(p)
    ensures GetPlayer(RemovePlayer(ps + [p], p), p.entityId) == None
  {
    var qs := ps + [p];
    assert qs[|ps|] == p;
    assert forall j :: 0 <= j < |ps| ==> qs[j] == ps[j] && ps[j].entityId != p.entityId;
    assert p !in ps;
    AddThenRemove(ps, p);
  }

  /**
   * One delivery of the existing-players handshake: the newcomer learns the
   * tab-list entry or the spawn of another member, or another member is sent
   * the newcomer's spawn.
   */
  predicate Handshake(d: Delivery, ps: seq<Player>, newcomer: Player)
  {
    if d.to == newcomer then
      || (d.packet.PlayerListItem? && d.packet.about in ps && d.packet.about != newcomer)
      || (d.packet.SpawnPlayer? && d.packet.spawned in ps && d.packet.spawned != newcomer)
    else
      d.to in ps && d.packet == SpawnPlayer(newcomer)
  }

  /** A handshake delivery for the tail of a roster is one for the whole roster. */
  lemma HandshakeWiden(ps: seq<Player>, newcomer: Player)
    requires |ps| > 0
    ensures forall d :: Handshake(d, ps[1..], newcomer) ==> Handshake(d, ps, newcomer)
  {
    assert forall r :: r in ps[1..] ==> r in ps;
  }

  /** Every spawn of a member sent to the newcomer comes right after that member's tab entry. */
  predicate TabBeforeSpawn(ds: seq<Delivery>, newcomer: Player)
  {
    forall i :: 0 <= i < |ds| && ds[i].to == newcomer && ds[i].packet.SpawnPlayer? ==>
      i > 0 && ds[i - 1] == Delivery(newcomer, PlayerListItem(ds[i].packet.spawned))
  }

  /** One member's three handshake deliveries in front keep the tab entries ahead of the spawns. */
  lemma TabBeforeSpawnCons(q: Player, newcomer: Player, rest: seq<Delivery>)
    requires q != newcomer && TabBeforeSpawn(rest, newcomer)
    ensures TabBeforeSpawn(Greeting(q, newcomer) + rest, newcomer)
  {
    var ds := Greeting(q, newcomer) + rest;
    forall i | 0 <= i < |ds| && ds[i].to == newcomer && ds[i].packet.SpawnPlayer?
      ensures i > 0 && ds[i - 1] == Delivery(newcomer, PlayerListItem(ds[i].packet.spawned))
    {
      if i >= 3 {
        assert ds[i] == rest[i - 3];
        if i > 3 {
          assert ds[i - 1] == rest[i - 4];
        }
      }
    }
  }

  /** Deliveries holding no spawn, put in front, keep the tab entries ahead of the spawns. */
  lemma TabBeforeSpawnAfterTabs(pre: seq<Delivery>, ds: seq<Delivery>, newcomer: Player)
    requires forall i :: 0 <= i < |pre| ==> !pre[i].packet.SpawnPlayer?
    requires TabBeforeSpawn(ds, newcomer)
    ensures TabBeforeSpawn(pre + ds, newcomer)
  {
    var all := pre + ds;
    forall i | 0 <= i < |all| && all[i].to == newcomer && all[i].packet.SpawnPlayer?
      ensures i > 0 && all[i - 1] == Delivery(newcomer, PlayerListItem(all[i].packet.spawned))
    {
      assert all[i] == ds[i - |pre|];
      if i - |pre| > 0 {
        assert all[i - 1] == ds[i - |pre| - 1];
      }
    }
  }

  /** The players whose tab entries are sent to `newcomer`, in delivery order. */
  function TabsTo(ds: seq<Delivery>, newcomer: Player): seq<Player>
    decreases |ds|
  {
    if |ds| == 0 then []
    else
      (if ds[0].to == newcomer && ds[0].packet.PlayerListItem? then [ds[0].packet.about] else [])
      + TabsTo(ds[1..], newcomer)
  }

  /** One member's handshake in front keeps the newcomer's tab entries in roster order. */
  lemma TabsCons(q: Player, newcomer: Player, rest: seq<Delivery>, tail: seq<Player>)
    requires IsSubsequence(TabsTo(rest, newcomer), tail)
    ensures q == newcomer ==> IsSubsequence(TabsTo(rest, newcomer), [q] + tail)
    ensures q != newcomer ==>
      IsSubsequence(TabsTo(Greeting(q, newcomer) + rest, newcomer), [q] + tail)
  {
    var ts := TabsTo(rest, newcomer);
    SubsequenceCons(ts, q, tail);
    if q != newcomer {
      var ds := Greeting(q, newcomer) + rest;
      assert ds[3..] == rest;
      assert ds[2..][1..] == ds[3..];
      assert ds[1..][1..] == ds[2..];
      assert TabsTo(ds[2..], newcomer) == ts;
      assert TabsTo(ds[1..], newcomer) == ts;
      assert TabsTo(ds, newcomer) == [q] + ts;
      assert ([q] + ts)[1..] == ts;
      assert ([q] + tail)[1..] == tail;
    }
  }

  /**
   * `BroadcastExistingPlayers(caller)`: for every other roster member, send the
   * newcomer its tab-list entry and its spawn, and send that member the
   * newcomer's spawn. The equipment sync is left out.
   */
  function ExistingPlayers(ps: seq<Player>, newcomer: Player): (ds: seq<Delivery>)
    ensures forall q :: q in ps && q != newcomer ==>
      && Delivery(newcomer, PlayerListItem(q)) in ds
      && Delivery(newcomer, SpawnPlayer(q)) in ds
      && Delivery(q, SpawnPlayer(newcomer)) in ds
    ensures Delivery(newcomer, SpawnPlayer(newcomer)) !in ds
    ensures forall d :: d in ds ==> Handshake(d, ps, newcomer)
    ensures |ds| == 3 * (|ps| - multiset(ps)[newcomer])
    ensures TabBeforeSpawn(ds, newcomer)
    ensures IsSubsequence(TabsTo(ds, newcomer), ps)
  {
    if |ps| == 0 then []
    else
      var rest := ExistingPlayers(ps[1..], newcomer);
      var ds := if ps[0] == newcomer then rest else Greeting(ps[0], newcomer) + rest;
      GreetingContents(ps, newcomer, rest, ds);
      GreetingShape(ps, newcomer, rest, ds);
      ds
  }

  /** The three deliveries between the newcomer and one other member, in the order they are sent. */
  function Greeting(q: Player, newcomer: Player): seq<Delivery>
  {
    [Delivery(newcomer, PlayerListItem(q)), Delivery(newcomer, SpawnPlayer(q)), Delivery(q, SpawnPlayer(newcomer))]
  }

  /** One roster entry more: who receives what. */
  lemma GreetingContents(ps: seq<Player>, newcomer: Player, rest: seq<Delivery>, ds: seq<Delivery>)
    requires |ps| > 0
    requires ds == if ps[0] == newcomer then rest else Greeting(ps[0], newcomer) + rest
    requires forall q :: q in ps[1..] && q != newcomer ==>
      && Delivery(newcomer, PlayerListItem(q)) in rest
      && Delivery(newcomer, SpawnPlayer(q)) in rest
      && Delivery(q, SpawnPlayer(newcomer)) in rest
    requires Delivery(newcomer, SpawnPlayer(newcomer)) !in rest
    requires forall d :: d in rest ==> Handshake(d, ps[1..], newcomer)
    ensures forall q :: q in ps && q != newcomer ==>
      && Delivery(newcomer, PlayerListItem(q)) in ds
      && Delivery(newcomer, SpawnPlayer(q)) in ds
      && Delivery(q, SpawnPlayer(newcomer)) in ds
    ensures Delivery(newcomer, SpawnPlayer(newcomer)) !in ds
    ensures forall d :: d in ds ==> Handshake(d, ps, newcomer)
  {
    assert forall r :: r in ps <==> r == ps[0] || r in ps[1..];
    HandshakeWiden(ps, newcomer);
  }

  /** One roster entry more: how many deliveries, and in what order. */
  lemma GreetingShape(ps: seq<Player>, newcomer: Player, rest: seq<Delivery>, ds: seq<Delivery>)
    requires |ps| > 0
    requires ds == if ps[0] == newcomer then rest else Greeting(ps[0], newcomer) + rest
    requires |rest| == 3 * (|ps[1..]| - multiset(ps[1..])[newcomer])
    requires TabBeforeSpawn(rest, newcomer)
    requires IsSubsequence(TabsTo(rest, newcomer), ps[1..])
    ensures |ds| == 3 * (|ps| - multiset(ps)[newcomer])
    ensures TabBeforeSpawn(ds, newcomer)
    ensures IsSubsequence(TabsTo(ds, newcomer), ps)
  {
    var q := ps[0];
    assert ps == [q] + ps[1..];
    assert multiset(ps)[newcomer] == (if q == newcomer then 1 else 0) + multiset(ps[1..])[newcomer];
    TabsCons(q, newcomer, rest, ps[1..]);
    if q != newcomer {
      TabBeforeSpawnCons(q, newcomer, rest);
    }
  }

  /**
   * `AddPlayer`: append the player, tell every member (the newcomer included)
   * about the newcomer's tab-list entry, then run the existing-players handshake.
   */
  function AddPlayer(ps: seq<Player>, p: Player): (r: (seq<Player>, seq<Delivery>))
    ensures r.0 == ps + [p]
    ensures |r.1| >= |r.0|
    ensures Recipients(r.1[..|r.0|]) == r.0
    ensures forall i :: 0 <= i < |r.0| ==> r.1[i].packet == PlayerListItem(p)
    ensures forall q :: q in ps && q != p ==>
      && Delivery(q, SpawnPlayer(p)) in r.1
      && Delivery(p, SpawnPlayer(q)) in r.1
      && Delivery(p, PlayerListItem(q)) in r.1
    ensures Delivery(p, SpawnPlayer(p)) !in r.1
    ensures |r.1| == |r.0| + 3 * (|ps| - multiset(ps)[p])
    ensures forall i :: |r.0| <= i < |r.1| ==> Handshake(r.1[i], ps, p)
    ensures TabBeforeSpawn(r.1, p)
    ensures IsSubsequence(TabsTo(r.1[|r.0|..], p), r.0)
  {
    var roster := ps + [p];
    var listed := Broadcast(roster, PlayerListItem(p));
    var handshake := ExistingPlayers(roster, p);
    JoinPrefix(roster, p, listed, handshake);
    JoinHandshake(ps, p, listed, handshake);
    (roster, listed + handshake)
  }

  /** The tab broadcast in front of the handshake: every member first gets the newcomer's tab entry. */
  lemma JoinPrefix(roster: seq<Player>, p: Player, listed: seq<Delivery>, handshake: seq<Delivery>)
    requires |listed| == |roster|
    requires forall i :: 0 <= i < |roster| ==> listed[i].to == roster[i] && listed[i].packet == PlayerListItem(p)
    requires TabBeforeSpawn(handshake, p)
    ensures |listed + handshake| >= |roster|
    ensures Recipients((listed + handshake)[..|roster|]) == roster
    ensures forall i :: 0 <= i < |roster| ==> (listed + handshake)[i].packet == PlayerListItem(p)
    ensures TabBeforeSpawn(listed + handshake, p)
  {
    assert (listed + handshake)[..|roster|] == listed;
    TabBeforeSpawnAfterTabs(listed, handshake, p);
  }

  /** The handshake after the tab broadcast, for the roster `ps + [p]` that already holds the newcomer. */
  lemma JoinHandshake(ps: seq<Player>, p: Player, listed: seq<Delivery>, handshake: seq<Delivery>)
    requires |listed| == |ps| + 1
    requires forall i :: 0 <= i < |listed| ==> listed[i].packet == PlayerListItem(p)
    requires forall q :: q in ps + [p] && q != p ==>
      && Delivery(p, PlayerListItem(q)) in handshake
      && Delivery(p, SpawnPlayer(q)) in handshake
      && Delivery(q, SpawnPlayer(p)) in handshake
    requires Delivery(p, SpawnPlayer(p)) !in handshake
    requires forall d :: d in handshake ==> Handshake(d, ps + [p], p)
    requires |handshake| == 3 * (|ps + [p]| - multiset(ps + [p])[p])
    requires IsSubsequence(TabsTo(handshake, p), ps + [p])
    ensures forall q :: q in ps && q != p ==>
      && Delivery(q, SpawnPlayer(p)) in listed + handshake
      && Delivery(p, SpawnPlayer(q)) in listed + handshake
      && Delivery(p, PlayerListItem(q)) in listed + handshake
    ensures Delivery(p, SpawnPlayer(p)) !in listed + handshake
    ensures |listed + handshake| == |ps + [p]| + 3 * (|ps| - multiset(ps)[p])
    ensures forall i :: |ps + [p]| <= i < |listed + handshake| ==> Handshake((listed + handshake)[i], ps, p)
    ensures IsSubsequence(TabsTo((listed + handshake)[|ps + [p]|..], p), ps + [p])
  {
    var roster := ps + [p];
    var all := listed + handshake;
    assert multiset(roster)[p] == multiset(ps)[p] + 1;
    assert forall q :: q in ps ==> q in roster;
    assert forall i :: |roster| <= i < |all| ==> all[i] == handshake[i - |roster|];
    assert forall d :: Handshake(d, roster, p) ==> Handshake(d, ps, p);
    assert all[|roster|..] == handshake;
    assert forall d :: d in listed ==> d.packet == PlayerListItem(p);
  }

  /** `BroadcastChat(message)`: a chat packet to every member, in roster order. */
  function BroadcastChat(ps: seq<Player>, message: string): (ds: seq<Delivery>)
    ensures Recipients(ds) == ps
    ensures forall d :: d in ds ==> d.packet == Chat(message)
  {
    Broadcast(ps, Chat(message))
  }

  /** `BroadcastChat(message, sender)`: a chat packet to every member other than `sender`, in roster order. */
  function BroadcastChatFrom(ps: seq<Player>, message: string, sender: Player): (ds: seq<Delivery>)
    ensures forall d :: d in ds ==> d.packet == Chat(message)
    ensures forall q :: q in Recipients(ds) <==> q in ps && q != sender
    ensures |ds| == |ps| - multiset(ps)[sender]
    ensures IsSubsequence(Recipients(ds), ps)
  {
    if |ps| == 0 then []
    else
      var rest := BroadcastChatFrom(ps[1..], message, sender);
      assert ps == [ps[0]] + ps[1..];
      assert multiset(ps)[sender] == (if ps[0] == sender then 1 else 0) + multiset(ps[1..])[sender];
      assert forall q :: q in ps <==> q == ps[0] || q in ps[1..];
      SubsequenceCons(Recipients(rest), ps[0], ps[1..]);
      if ps[0] == sender then rest
      else
        var ds := [Delivery(ps[0], Chat(message))] + rest;
        assert Recipients(ds) == [ps[0]] + Recipients(rest);
        assert Recipients(ds)[1..] == Recipients(rest);
        ds
  }

  /** A sender that is not on the roster excludes nobody. */
  lemma {:induction false} ChatFromOutsider(ps: seq<Player>, message: string, sender: Player)
    requires sender !in ps
    ensures BroadcastChatFrom(ps, message, sender) == BroadcastChat(ps, message)
    decreases |ps|
  {
    if |ps| > 0 {
      ChatFromOutsider(ps[1..], message, sender);
      assert BroadcastChat(ps, message) == [Delivery(ps[0], Chat(message))] + BroadcastChat(ps[1..], message);
    }
  }
}
