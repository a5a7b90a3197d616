/**
 Messages between peers of one or several server nodes (hub/hub.go, lines 297-322, 391-445
 and 589-642; namespace/namespace.go, lines 105-126; peer/peer.go, lines 130-167).

 A node hands a message to the broker, which puts it into the inbox of every node, the
 sending one included; inboxes are emptied in any order. Between two steps the registry,
 the namespaces, the aliases and the state of the connections of any node may change in any
 way. `serial` tells messages apart; `sent` and `reached` are history.
 */
module Routing {
  import opened Peers

  datatype Kind = Signal | Relay | Broadcast

  datatype Message = Message(serial: nat, kind: Kind, from: string, to: string, ns: string, nodeId: string)

  /** A peer object on a node. */
  datatype Client = Client(node: string, peer: Peer)

  /** A connection: `free` slots of its send buffer, and every routed message it took. */
  datatype Box = Box(open: bool, free: nat, log: seq<Message>)

  type Boxes = map<Client, Box>

  datatype Node = Node(registry: map<string, Client>, spaces: map<string, map<string, Client>>,
                       aliases: map<string, string>, inbox: seq<Message>)

  /** history: where a message entered the system, and whether the broker got it. */
  datatype Sent = Sent(origin: string, published: bool, message: Message)

  /** history: `reached[(serial, node)]` are the clients that a node delivered a message to. */
  datatype Cluster = Cluster(nodes: map<string, Node>, boxes: Boxes, sent: seq<Sent>,
                             reached: map<(nat, string), set<Client>>)

  // ---- Delivery on one node ----

  /** `SendRaw` succeeds: the connection is open and its buffer is not full. */
  predicate CanTake(boxes: Boxes, c: Client) {
    c in boxes && boxes[c].open && boxes[c].free > 0
  }

  function Send(boxes: Boxes, targets: set<Client>, m: Message): Boxes {
    map c | c in boxes :: if c in targets && CanTake(boxes, c)
                          then Box(true, boxes[c].free - 1, boxes[c].log + [m]) else boxes[c]
  }

  function Members(node: Node, ns: string): map<string, Client> {
    if ns in node.spaces then node.spaces[ns] else map[]
  }

  /** The clients that `BroadcastRaw` reaches: open members with room, but not the sender. */
  function FanOut(members: map<string, Client>, boxes: Boxes, exclude: string): set<Client> {
    set f <- members | members[f].peer.fingerprint != exclude && CanTake(boxes, members[f]) :: members[f]
  }

  function Others(clients: set<Client>, exclude: string): set<Client> {
    set c <- clients | c.peer.fingerprint != exclude
  }

  function Lookup(node: Node, to: string): set<Client> {
    if to in node.registry then {node.registry[to]} else {}
  }

  predicate Shares(node: Node, p: Client, q: Client) {
    exists ns <- node.spaces :: p in node.spaces[ns].Values && q in node.spaces[ns].Values
  }

  // ---- The loop of BroadcastRaw ----

  class Connections {
    var boxes: Boxes

    constructor (boxes: Boxes)
      ensures this.boxes == boxes
    {
      this.boxes := boxes;
    }

    method SendRaw(c: Client, m: Message) returns (ok: bool)
      modifies this
      ensures ok <==> CanTake(old(boxes), c)
      ensures boxes == Send(old(boxes), {c}, m)
      ensures if ok then boxes == old(boxes)[c := Box(true, old(boxes)[c].free - 1, old(boxes)[c].log + [m])]
              else boxes == old(boxes)
    {
      if c !in boxes || !boxes[c].open || boxes[c].free == 0 { return false; }
      boxes := boxes[c := Box(true, boxes[c].free - 1, boxes[c].log + [m])];
      return true;
    }

    /** The open members, as a snapshot. */
    method Snapshot(members: map<string, Client>) returns (clients: set<Client>)
      ensures clients == set f <- members | members[f] in boxes && boxes[members[f]].open :: members[f]
    {
      clients := {};
      var rest := members.Keys;
      while rest != {}
        invariant rest <= members.Keys
        invariant clients == set f <- members | f !in rest && members[f] in boxes && boxes[members[f]].open :: members[f]
      {
        var f :| f in rest;
        rest := rest - {f};
        if members[f] in boxes && boxes[members[f]].open {
          clients := clients + {members[f]};
        }
      }
    }

    /** Every open member but the excluded one gets the message once, if its buffer has room. */
    method BroadcastRaw(members: map<string, Client>, m: Message, exclude: string)
      modifies this
      ensures boxes == Send(old(boxes), FanOut(members, old(boxes), exclude), m)
    {
      var clients := Snapshot(members);
      var rest := clients;
      while rest != {}
        invariant rest <= clients
        invariant boxes == Send(old(boxes), Others(clients - rest, exclude), m)
      {
        var c :| c in rest;
        ghost var done := Others(clients - rest, exclude);
        rest := rest - {c};
        ghost var done' := Others(clients - rest, exclude);
        if c.peer.fingerprint != exclude {
          SendTwice(old(boxes), done, c, m);
          assert done' == done + {c};
          var ok := SendRaw(c, m);
        } else {
          assert done' == done;
        }
      }
      SendOnlyTaking(old(boxes), Others(clients - rest, exclude),
                     FanOut(members, old(boxes), exclude), m);
    }
  }

  lemma SendTwice(boxes: Boxes, done: set<Client>, c: Client, m: Message)
    requires c !in done
    ensures Send(Send(boxes, done, m), {c}, m) == Send(boxes, done + {c}, m)
  {
  }

  lemma SendOnlyTaking(boxes: Boxes, a: set<Client>, b: set<Client>, m: Message)
    requires forall c :: CanTake(boxes, c) ==> (c in a <==> c in b)
    ensures Send(boxes, a, m) == Send(boxes, b, m)
  {
  }
}
