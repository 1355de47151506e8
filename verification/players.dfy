/**
 * The actors a level holds references to, and the outbound packets it sends
 * them. Packets are recorded as deliveries (recipient, packet) instead of
 * being written to a connection.
 */
module Players {

  /**
   * A connected player. `handle` stands for the object's identity: the level
   * compares players by reference, which the model reads as equality of the
   * whole value.
   */
  datatype Player = Player(handle: nat, entityId: int, username: string)

  /** A simulated non-player actor, identified by its handle. */
  datatype Entity = Entity(handle: nat)

  /** The reason codes of the game-state change packet that the weather uses. */
  datatype GameStateReason = BeginRaining | EndRaining

  /** The outbound packets the level sends. */
  datatype Packet =
    | TimeUpdate(time: int, day: int)
    | ChangeGameState(reason: GameStateReason)
    | Chat(text: string)
    | PlayerListItem(about: Player)
    | SpawnPlayer(spawned: Player)

  /** One packet written to one player's connection. */
  datatype Delivery = Delivery(to: Player, packet: Packet)

  /** The same packet written to every player of `ps`, in roster order. */
  function Broadcast(ps: seq<Player>, p: Packet): (ds: seq<Delivery>)
    ensures |ds| == |ps|
    ensures forall i :: 0 <= i < |ps| ==> ds[i].to == ps[i] && ds[i].packet == p
  {
    seq(|ps|, i requires 0 <= i < |ps| => Delivery(ps[i], p))
  }

  /** Who the deliveries go to, in order. */
  function Recipients(ds: seq<Delivery>): (ps: seq<Player>)
    ensures |ps| == |ds|
    ensures forall i :: 0 <= i < |ds| ==> ps[i] == ds[i].to
  {
    seq(|ds|, i requires 0 <= i < |ds| => ds[i].to)
  }
}
