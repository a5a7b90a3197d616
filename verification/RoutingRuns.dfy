/** Runs of a cluster of nodes: every message is delivered where it should be, once. */
module RoutingRuns {
  import opened Routing

  datatype Event =
    | BroadcastFrom(node: string, client: Client, ns: string, claimed: string)
    | PointFrom(node: string, client: Client, kind: Kind, to: string, claimed: string)
    | TakeFrom(node: string, index: nat)
    | Change(nodes: map<string, Node>, boxes: Boxes)

  // ---- One step ----

  /** Everything a node holds is its own, and filed under the peer's fingerprint. */
  ghost predicate NodeOk(node: Node, n: string) {
    && (forall f <- node.registry :: node.registry[f].node == n && node.registry[f].peer.fingerprint == f)
    && (forall ns <- node.spaces, f <- node.spaces[ns] ::
          node.spaces[ns][f].node == n && node.spaces[ns][f].peer.fingerprint == f)
  }

  /** Any change of registries, namespaces, aliases and connections, but not of inboxes nor of
      what connections already took. */
  ghost predicate ChangeOk(s: Cluster, nodes: map<string, Node>, boxes: Boxes) {
    && nodes.Keys == s.nodes.Keys
    && (forall n <- nodes :: NodeOk(nodes[n], n) && nodes[n].inbox == s.nodes[n].inbox)
    && (forall c <- s.boxes :: c in boxes && boxes[c].log == s.boxes[c].log)
    && (forall c <- boxes :: c in s.boxes || boxes[c].log == [])
  }

  ghost predicate Enabled(s: Cluster, ev: Event) {
    match ev
    case BroadcastFrom(n, c, _, _) => n in s.nodes && c.node == n
    case PointFrom(n, c, kind, _, _) => n in s.nodes && c.node == n && kind != Broadcast
    case TakeFrom(n, i) => n in s.nodes && i < |s.nodes[n].inbox|
    case Change(nodes, boxes) => ChangeOk(s, nodes, boxes)
  }

  /** A node delivers message number `serial` to `targets`, as the bytes of `m`. */
  function Deliver(s: Cluster, n: string, serial: nat, targets: set<Client>, m: Message): Cluster {
    s.(boxes := Send(s.boxes, targets, m), reached := s.reached[(serial, n) := targets])
  }

  /** The broker gives the message, stamped with its origin, once to every node. */
  function Publish(nodes: map<string, Node>, m: Message): map<string, Node> {
    map n | n in nodes :: nodes[n].(inbox := nodes[n].inbox + [m])
  }

  /** A message that is answered with an error: it counts as sent and goes nowhere. */
  function Refuse(s: Cluster, n: string, m: Message): Cluster {
    Deliver(s, n, m.serial, {}, m).(sent := s.sent + [Sent(n, false, m)])
  }

  function BroadcastStep(s: Cluster, n: string, c: Client, ns: string, claimed: string): Cluster
    requires n in s.nodes
  {
    var members := Members(s.nodes[n], ns);
    var m := Message(|s.sent|, Broadcast, c.peer.fingerprint, "", ns, claimed);
    if ns !in s.nodes[n].spaces || c.peer.fingerprint !in members then Refuse(s, n, m)
    else
      var s1 := Deliver(s, n, m.serial, FanOut(members, s.boxes, m.from), m);
      s1.(nodes := Publish(s.nodes, m.(nodeId := n)), sent := s.sent + [Sent(n, true, m)])
  }

  function Resolve(node: Node, to: string): string {
    if to in node.aliases then node.aliases[to] else to
  }

  function Taking(boxes: Boxes, targets: set<Client>): set<Client> {
    set c <- targets | CanTake(boxes, c)
  }

  function PointStep(s: Cluster, n: string, c: Client, kind: Kind, to: string, claimed: string): Cluster
    requires n in s.nodes
  {
    var node := s.nodes[n];
    var m := Message(|s.sent|, kind, c.peer.fingerprint, Resolve(node, to), "", claimed);
    if to == "" then Refuse(s, n, m)
    else if m.to in node.registry then
      if !Shares(node, c, node.registry[m.to]) then Refuse(s, n, m)
      else Deliver(s, n, m.serial, Taking(s.boxes, Lookup(node, m.to)), m).(sent := s.sent + [Sent(n, false, m)])
    else
      Deliver(s, n, m.serial, {}, m).(nodes := Publish(s.nodes, m.(nodeId := n)), sent := s.sent + [Sent(n, true, m)])
  }

  function Without(ms: seq<Message>, i: nat): seq<Message>
    requires i < |ms|
  {
    ms[..i] + ms[i + 1..]
  }

  /** The clients that a node delivers a message from the broker to. */
  function BrokerTargets(node: Node, boxes: Boxes, m: Message): set<Client> {
    if m.kind == Broadcast then FanOut(Members(node, m.ns), boxes, m.from)
    else if m.to == "" then {}
    else Taking(boxes, Lookup(node, m.to))
  }

  function TakeStep(s: Cluster, n: string, i: nat): Cluster
    requires n in s.nodes && i < |s.nodes[n].inbox|
  {
    var node := s.nodes[n];
    var m := node.inbox[i];
    var s1 := s.(nodes := s.nodes[n := node.(inbox := Without(node.inbox, i))]);
    if m.nodeId == n then s1
    else Deliver(s1, n, m.serial, BrokerTargets(node, s.boxes, m), m.(nodeId := ""))
  }

  function Step(s: Cluster, ev: Event): Cluster
    requires Enabled(s, ev)
  {
    match ev
    case BroadcastFrom(n, c, ns, claimed) => BroadcastStep(s, n, c, ns, claimed)
    case PointFrom(n, c, kind, to, claimed) => PointStep(s, n, c, kind, to, claimed)
    case TakeFrom(n, i) => TakeStep(s, n, i)
    case Change(nodes, boxes) => s.(nodes := nodes, boxes := boxes)
  }

  ghost predicate ValidRun(s: Cluster, run: seq<Event>)
    decreases |run|
  {
    run == [] || (Enabled(s, run[0]) && ValidRun(Step(s, run[0]), run[1..]))
  }

  ghost function Exec(s: Cluster, run: seq<Event>): Cluster
    requires ValidRun(s, run)
    decreases |run|
  {
    if run == [] then s else Exec(Step(s, run[0]), run[1..])
  }

  /** Nodes with distinct identifiers, nothing sent yet. */
  ghost predicate Initial(s: Cluster) {
    && s.sent == [] && s.reached == map[]
    && (forall n <- s.nodes :: NodeOk(s.nodes[n], n) && s.nodes[n].inbox == [])
    && (forall c <- s.boxes :: s.boxes[c].log == [])
  }

  // ---- Counting copies ----

  function Count(ms: seq<Message>, serial: nat): nat {
    if ms == [] then 0
    else Count(ms[..|ms| - 1], serial) + (if ms[|ms| - 1].serial == serial then 1 else 0)
  }

  lemma CountAppend(ms: seq<Message>, m: Message, serial: nat)
    ensures Count(ms + [m], serial) == Count(ms, serial) + (if m.serial == serial then 1 else 0)
  {
    assert (ms + [m])[..|ms|] == ms;
  }

  lemma {:induction false} CountConcat(a: seq<Message>, b: seq<Message>, serial: nat)
    ensures Count(a + b, serial) == Count(a, serial) + Count(b, serial)
  {
    if b == [] {
      assert a + b == a;
    } else {
      assert (a + b)[..|a + b| - 1] == a + b[..|b| - 1];
      CountConcat(a, b[..|b| - 1], serial);
    }
  }

  lemma CountWithout(ms: seq<Message>, i: nat, serial: nat)
    requires i < |ms|
    ensures Count(Without(ms, i), serial) == Count(ms, serial) - (if ms[i].serial == serial then 1 else 0)
  {
    assert ms == ms[..i] + ([ms[i]] + ms[i + 1..]);
    CountConcat(ms[..i], ms[i + 1..], serial);
    CountConcat(ms[..i], [ms[i]] + ms[i + 1..], serial);
    CountConcat([ms[i]], ms[i + 1..], serial);
    assert [ms[i]][..0] == [];
  }

  lemma {:induction false} CountNone(ms: seq<Message>, serial: nat)
    requires forall m <- ms :: m.serial != serial
    ensures Count(ms, serial) == 0
  {
    if ms != [] { CountNone(ms[..|ms| - 1], serial); }
  }

  lemma {:induction false} CountSome(ms: seq<Message>, m: Message)
    requires m in ms
    ensures Count(ms, m.serial) > 0
  {
    var last := |ms| - 1;
    if ms[last] != m {
      assert m in ms[..last];
      CountSome(ms[..last], m);
    }
  }

  // ---- The invariant ----

  ghost predicate SentInv(s: Cluster, k: nat)
    requires k < |s.sent|
  {
    s.sent[k].message.serial == k && s.sent[k].origin in s.nodes
  }

  /** An inbox holds published messages only, as they were sent, stamped with their origin. */
  ghost predicate InboxInv(s: Cluster, n: string)
    requires n in s.nodes
  {
    forall m <- s.nodes[n].inbox ::
      && m.serial < |s.sent| && s.sent[m.serial].published
      && m == s.sent[m.serial].message.(nodeId := s.sent[m.serial].origin)
  }

  /** Where the copy of message `k` for node `n` is: a published message is either still in
      the inbox of another node or was delivered by it; its origin delivered it at once. */
  ghost predicate TallyInv(s: Cluster, k: nat, n: string)
    requires k < |s.sent| && n in s.nodes
  {
    var copies := Count(s.nodes[n].inbox, k);
    if n == s.sent[k].origin then copies <= 1 && (k, n) in s.reached
    else if s.sent[k].published then copies == if (k, n) in s.reached then 0 else 1
    else copies == 0 && (k, n) !in s.reached
  }

  ghost predicate WasReached(s: Cluster, k: nat, c: Client) {
    (k, c.node) in s.reached && c in s.reached[(k, c.node)]
  }

  /** The bytes that a client of node `n` sees: what was sent, without the node stamp elsewhere. */
  ghost predicate AsSent(s: Cluster, m: Message, n: string) {
    && m.serial < |s.sent|
    && m == (if n == s.sent[m.serial].origin then s.sent[m.serial].message
             else s.sent[m.serial].message.(nodeId := ""))
  }

  /** A connection took one copy of each message that its node delivered to it, and no other. */
  ghost predicate LogInv(s: Cluster, c: Client)
    requires c in s.boxes
  {
    && (forall m <- s.boxes[c].log :: AsSent(s, m, c.node))
    && (forall k: nat | k < |s.sent| :: Count(s.boxes[c].log, k) == if WasReached(s, k, c) then 1 else 0)
  }

  /** A node delivers to its own clients; a broadcast spares its sender, and a published
      signal or relay has no target on its origin. */
  ghost predicate ReachedInv(s: Cluster, k: nat, n: string)
    requires (k, n) in s.reached
  {
    && k < |s.sent| && n in s.nodes
    && (forall c <- s.reached[(k, n)] :: c.node == n && c in s.boxes)
    && (s.sent[k].message.kind == Broadcast ==>
          forall c <- s.reached[(k, n)] :: c.peer.fingerprint != s.sent[k].message.from)
    && (s.sent[k].message.kind != Broadcast && s.sent[k].published && n == s.sent[k].origin ==> s.reached[(k, n)] == {})
  }

  ghost predicate Inv(s: Cluster) {
    && (forall n <- s.nodes :: NodeOk(s.nodes[n], n) && InboxInv(s, n))
    && (forall k: nat | k < |s.sent| :: SentInv(s, k))
    && (forall k: nat, n | k < |s.sent| && n in s.nodes :: TallyInv(s, k, n))
    && (forall c <- s.boxes :: LogInv(s, c))
    && (forall k, n | (k, n) in s.reached :: ReachedInv(s, k, n))
  }

  // ---- What the steps keep ----

  /** `s'` is `s` after node `n` delivered message `k`, new to it, to `targets`. */
  ghost predicate Delivers(s: Cluster, s': Cluster, n: string, k: nat, targets: set<Client>, m: Message) {
    && s'.nodes.Keys == s.nodes.Keys && (k, n) !in s.reached && m.serial == k && s.sent <= s'.sent && AsSent(s', m, n)
    && (k < |s.sent| ==> s'.sent == s.sent) && (k >= |s.sent| ==> k == |s.sent| && |s'.sent| == k + 1)
    && (forall c <- targets :: c.node == n && CanTake(s.boxes, c))
    && s'.boxes == Send(s.boxes, targets, m)
    && s'.reached == s.reached[(k, n) := targets]
  }

  lemma DeliversKeepsLog(s: Cluster, s': Cluster, n: string, k: nat, targets: set<Client>, m: Message, c: Client)
    requires Delivers(s, s', n, k, targets, m) && c in s.boxes && LogInv(s, c)
    requires forall j: nat | (j, c.node) in s.reached :: j < |s.sent|
    ensures LogInv(s', c)
  {
    var log, log' := s.boxes[c].log, s'.boxes[c].log;
    forall m' <- log' ensures AsSent(s', m', c.node) {
      assert m' in log || (m' == m && c in targets);
    }
    forall j: nat | j < |s'.sent| ensures Count(log', j) == if WasReached(s', j, c) then 1 else 0 {
      CountAppend(log, m, j);
      if j >= |s.sent| { CountNone(log, j); }
    }
  }

  lemma DeliversKeepsReached(s: Cluster, s': Cluster, n: string, k: nat, targets: set<Client>, m: Message)
    requires Delivers(s, s', n, k, targets, m)
    requires forall j, l | (j, l) in s.reached :: ReachedInv(s, j, l)
    requires ReachedInv(s', k, n)
    ensures forall j, l | (j, l) in s'.reached :: ReachedInv(s', j, l)
  {
    forall j, l | (j, l) in s'.reached ensures ReachedInv(s', j, l) {
      if (j, l) != (k, n) { assert ReachedInv(s, j, l); }
    }
  }

  lemma DeliversKeepsLogs(s: Cluster, s': Cluster, n: string, k: nat, targets: set<Client>, m: Message)
    requires Delivers(s, s', n, k, targets, m)
    requires forall c <- s.boxes :: LogInv(s, c)
    requires forall j, l | (j, l) in s.reached :: ReachedInv(s, j, l)
    ensures forall c <- s'.boxes :: LogInv(s', c)
  {
    forall c <- s'.boxes ensures LogInv(s', c) {
      forall j: nat | (j, c.node) in s.reached ensures j < |s.sent| { assert ReachedInv(s, j, c.node); }
      DeliversKeepsLog(s, s', n, k, targets, m, c);
    }
  }

  /** A new message enters at node `n`; `published` says if every inbox got a copy. */
  ghost predicate Enters(s: Cluster, s': Cluster, n: string, m: Message, published: bool) {
    && n in s.nodes && m.serial == |s.sent|
    && s'.sent == s.sent + [Sent(n, published, m)]
    && s'.nodes == (if published then Publish(s.nodes, m.(nodeId := n)) else s.nodes)
  }

  lemma EntersKeepsNodes(s: Cluster, s': Cluster, n: string, m: Message, published: bool)
    requires Enters(s, s', n, m, published)
    requires forall l <- s.nodes :: NodeOk(s.nodes[l], l) && InboxInv(s, l)
    requires forall k: nat | k < |s.sent| :: SentInv(s, k)
    ensures forall l <- s'.nodes :: NodeOk(s'.nodes[l], l) && InboxInv(s', l)
    ensures forall k: nat | k < |s'.sent| :: SentInv(s', k)
  {
    forall k: nat | k < |s'.sent| ensures SentInv(s', k) {
      if k < |s.sent| { assert SentInv(s, k); }
    }
    forall l <- s'.nodes ensures NodeOk(s'.nodes[l], l) && InboxInv(s', l) {
      assert NodeOk(s.nodes[l], l) && InboxInv(s, l);
    }
  }

  lemma EntersKeepsTally(s: Cluster, s': Cluster, n: string, m: Message, published: bool, targets: set<Client>, k: nat, l: string)
    requires Enters(s, s', n, m, published) && s'.reached == s.reached[(m.serial, n) := targets]
    requires InboxInv(s, n) && l in s.nodes && InboxInv(s, l) && k < |s'.sent|
    requires k < |s.sent| ==> TallyInv(s, k, l)
    requires (m.serial, l) !in s.reached
    ensures TallyInv(s', k, l)
  {
    CountAppend(s.nodes[l].inbox, m.(nodeId := n), k);
    if k == |s.sent| { CountNone(s.nodes[l].inbox, k); }
  }

  lemma NewIsUnreached(s: Cluster)
    requires forall j, l | (j, l) in s.reached :: ReachedInv(s, j, l)
    ensures forall l :: (|s.sent|, l) !in s.reached
  {
    forall j, l | (j, l) in s.reached ensures j < |s.sent| { assert ReachedInv(s, j, l); }
  }

  lemma EntersKeepsInv(s: Cluster, s': Cluster, n: string, m: Message, published: bool, targets: set<Client>)
    requires Inv(s) && Enters(s, s', n, m, published)
    requires s'.reached == s.reached[(m.serial, n) := targets] && s'.boxes == Send(s.boxes, targets, m)
    requires forall c <- targets :: c.node == n && CanTake(s.boxes, c)
    requires m.kind == Broadcast ==> forall c <- targets :: c.peer.fingerprint != m.from
    requires m.kind != Broadcast && published ==> targets == {}
    ensures Inv(s')
  {
    var k := m.serial;
    NewIsUnreached(s);
    EntersKeepsNodes(s, s', n, m, published);
    forall j: nat, l | j < |s'.sent| && l in s'.nodes ensures TallyInv(s', j, l) {
      EntersKeepsTally(s, s', n, m, published, targets, j, l);
    }
    assert Delivers(s, s', n, k, targets, m);
    DeliversKeepsLogs(s, s', n, k, targets, m);
    assert s'.sent[k] == Sent(n, published, m);
    DeliversKeepsReached(s, s', n, k, targets, m);
  }

  lemma FanOutOwn(node: Node, n: string, ns: string, boxes: Boxes, exclude: string)
    requires NodeOk(node, n)
    ensures forall c <- FanOut(Members(node, ns), boxes, exclude) ::
              c.node == n && CanTake(boxes, c) && c.peer.fingerprint != exclude
  {
  }

  lemma BroadcastKeepsInv(s: Cluster, n: string, c: Client, ns: string, claimed: string)
    requires Inv(s) && n in s.nodes
    ensures Inv(BroadcastStep(s, n, c, ns, claimed))
  {
    var s' := BroadcastStep(s, n, c, ns, claimed);
    var m := Message(|s.sent|, Broadcast, c.peer.fingerprint, "", ns, claimed);
    if ns in s.nodes[n].spaces && c.peer.fingerprint in s.nodes[n].spaces[ns] {
      FanOutOwn(s.nodes[n], n, ns, s.boxes, m.from);
      EntersKeepsInv(s, s', n, m, true, FanOut(Members(s.nodes[n], ns), s.boxes, m.from));
    } else {
      EntersKeepsInv(s, s', n, m, false, {});
    }
  }

  lemma PointKeepsInv(s: Cluster, n: string, c: Client, kind: Kind, to: string, claimed: string)
    requires Inv(s) && n in s.nodes && kind != Broadcast
    ensures Inv(PointStep(s, n, c, kind, to, claimed))
  {
    var s' := PointStep(s, n, c, kind, to, claimed);
    var node := s.nodes[n];
    var m := Message(|s.sent|, kind, c.peer.fingerprint, Resolve(node, to), "", claimed);
    assert NodeOk(node, n);
    if to == "" || (m.to in node.registry && !Shares(node, c, node.registry[m.to])) {
      EntersKeepsInv(s, s', n, m, false, {});
    } else if m.to in node.registry {
      EntersKeepsInv(s, s', n, m, false, Taking(s.boxes, Lookup(node, m.to)));
    } else {
      EntersKeepsInv(s, s', n, m, true, {});
    }
  }

  // ---- Taking a message from the broker ----

  lemma TakeKeepsNodes(s: Cluster, n: string, i: nat)
    requires n in s.nodes && i < |s.nodes[n].inbox|
    requires forall l <- s.nodes :: NodeOk(s.nodes[l], l) && InboxInv(s, l)
    requires forall k: nat | k < |s.sent| :: SentInv(s, k)
    ensures var s' := TakeStep(s, n, i);
            && (forall l <- s'.nodes :: NodeOk(s'.nodes[l], l) && InboxInv(s', l))
            && (forall k: nat | k < |s'.sent| :: SentInv(s', k))
  {
    var s' := TakeStep(s, n, i);
    forall l <- s'.nodes ensures NodeOk(s'.nodes[l], l) && InboxInv(s', l) {
      assert NodeOk(s.nodes[l], l) && InboxInv(s, l);
    }
    forall k: nat | k < |s'.sent| ensures SentInv(s', k) { assert SentInv(s, k); }
  }

  lemma TakeKeepsTally(s: Cluster, n: string, i: nat, k: nat, l: string)
    requires Inv(s) && n in s.nodes && i < |s.nodes[n].inbox| && k < |s.sent| && l in s.nodes
    ensures TallyInv(TakeStep(s, n, i), k, l)
  {
    assert TallyInv(s, k, l) && InboxInv(s, n);
    if l == n { TakeMovesCopy(s, n, i, k); }
  }

  /** On the taking node the copy leaves the inbox, and is delivered unless it is an echo. */
  lemma TakeMovesCopy(s: Cluster, n: string, i: nat, k: nat)
    requires n in s.nodes && i < |s.nodes[n].inbox| && k < |s.sent| && InboxInv(s, n) && TallyInv(s, k, n)
    ensures TallyInv(TakeStep(s, n, i), k, n)
  {
    CountWithout(s.nodes[n].inbox, i, k);
    CountSome(s.nodes[n].inbox, s.nodes[n].inbox[i]);
  }

  lemma TakeIsNew(s: Cluster, n: string, i: nat)
    requires Inv(s) && n in s.nodes && i < |s.nodes[n].inbox|
    ensures var m := s.nodes[n].inbox[i];
            && m.serial < |s.sent| && (m.nodeId == n <==> s.sent[m.serial].origin == n)
            && s.sent[m.serial].published && m == s.sent[m.serial].message.(nodeId := s.sent[m.serial].origin)
            && (m.nodeId != n ==> (m.serial, n) !in s.reached)
  {
    var m := s.nodes[n].inbox[i];
    assert InboxInv(s, n);
    assert TallyInv(s, m.serial, n);
    CountSome(s.nodes[n].inbox, m);
  }

  lemma BrokerTargetsOwn(s: Cluster, n: string, m: Message)
    requires n in s.nodes && NodeOk(s.nodes[n], n)
    ensures var targets := BrokerTargets(s.nodes[n], s.boxes, m);
            && (forall c <- targets :: c.node == n && CanTake(s.boxes, c))
            && (m.kind == Broadcast ==> forall c <- targets :: c.peer.fingerprint != m.from)
  {
    if m.kind == Broadcast { FanOutOwn(s.nodes[n], n, m.ns, s.boxes, m.from); }
  }

  lemma TakeKeepsInv(s: Cluster, n: string, i: nat)
    requires Inv(s) && n in s.nodes && i < |s.nodes[n].inbox|
    ensures Inv(TakeStep(s, n, i))
  {
    var s' := TakeStep(s, n, i);
    var m := s.nodes[n].inbox[i];
    TakeKeepsNodes(s, n, i);
    TakeIsNew(s, n, i);
    forall k: nat, l | k < |s'.sent| && l in s'.nodes ensures TallyInv(s', k, l) {
      TakeKeepsTally(s, n, i, k, l);
    }
    if m.nodeId == n {
      forall k, l | (k, l) in s'.reached ensures ReachedInv(s', k, l) { assert ReachedInv(s, k, l); }
      forall c <- s'.boxes ensures LogInv(s', c) { assert LogInv(s, c); }
    } else {
      assert NodeOk(s.nodes[n], n);
      BrokerTargetsOwn(s, n, m);
      TakeDelivers(s, n, i);
    }
  }

  lemma TakeDelivers(s: Cluster, n: string, i: nat)
    requires Inv(s) && n in s.nodes && i < |s.nodes[n].inbox| && s.nodes[n].inbox[i].nodeId != n
    ensures var s' := TakeStep(s, n, i);
            && (forall c <- s'.boxes :: LogInv(s', c))
            && (forall k, l | (k, l) in s'.reached :: ReachedInv(s', k, l))
  {
    var s' := TakeStep(s, n, i);
    var m := s.nodes[n].inbox[i];
    TakeIsNew(s, n, i);
    assert NodeOk(s.nodes[n], n);
    BrokerTargetsOwn(s, n, m);
    var targets := BrokerTargets(s.nodes[n], s.boxes, m);
    assert Delivers(s, s', n, m.serial, targets, m.(nodeId := ""));
    DeliversKeepsLogs(s, s', n, m.serial, targets, m.(nodeId := ""));
    DeliversKeepsReached(s, s', n, m.serial, targets, m.(nodeId := ""));
  }

  lemma ChangeKeepsInv(s: Cluster, nodes: map<string, Node>, boxes: Boxes)
    requires Inv(s) && ChangeOk(s, nodes, boxes)
    ensures Inv(s.(nodes := nodes, boxes := boxes))
  {
    var s' := s.(nodes := nodes, boxes := boxes);
    forall k, l | (k, l) in s'.reached ensures ReachedInv(s', k, l) { assert ReachedInv(s, k, l); }
    forall c <- s'.boxes ensures LogInv(s', c) {
      if c in s.boxes {
        assert LogInv(s, c);
      } else {
        assert forall k: nat | (k, c.node) in s.reached :: ReachedInv(s, k, c.node);
      }
    }
    forall l <- s'.nodes ensures NodeOk(s'.nodes[l], l) && InboxInv(s', l) { assert InboxInv(s, l); }
    forall k: nat | k < |s'.sent| ensures SentInv(s', k) { assert SentInv(s, k); }
    forall k: nat, l | k < |s'.sent| && l in s'.nodes ensures TallyInv(s', k, l) { assert TallyInv(s, k, l); }
  }

  lemma StepKeepsInv(s: Cluster, ev: Event)
    requires Inv(s) && Enabled(s, ev)
    ensures Inv(Step(s, ev))
  {
    match ev {
      case BroadcastFrom(n, c, ns, claimed) => BroadcastKeepsInv(s, n, c, ns, claimed);
      case PointFrom(n, c, kind, to, claimed) => PointKeepsInv(s, n, c, kind, to, claimed);
      case TakeFrom(n, i) => TakeKeepsInv(s, n, i);
      case Change(nodes, boxes) => ChangeKeepsInv(s, nodes, boxes);
    }
  }

  lemma {:induction false} RunKeepsInv(s: Cluster, run: seq<Event>)
    requires Inv(s) && ValidRun(s, run)
    ensures Inv(Exec(s, run))
    decreases |run|
  {
    if run != [] {
      StepKeepsInv(s, run[0]);
      RunKeepsInv(Step(s, run[0]), run[1..]);
    }
  }

  // ---- What holds on every run ----

  /** At most one copy of message `k` on connection `c`: none if `c` belongs to the sender of
      a broadcast, if a signal or relay left `c`'s node, or if it never left another node. */
  ghost predicate CopiesOk(s: Cluster, k: nat, c: Client)
    requires k < |s.sent| && c in s.boxes
  {
    var copies := Count(s.boxes[c].log, k);
    var sent := s.sent[k];
    && copies <= 1
    && (sent.message.kind == Broadcast && c.peer.fingerprint == sent.message.from ==> copies == 0)
    && (sent.message.kind != Broadcast && sent.published && c.node == sent.origin ==> copies == 0)
    && (!sent.published && c.node != sent.origin ==> copies == 0)
  }

  lemma InvMeansCopiesOk(s: Cluster, k: nat, c: Client)
    requires Inv(s) && k < |s.sent| && c in s.boxes
    ensures CopiesOk(s, k, c)
  {
    assert LogInv(s, c);
    if (k, c.node) in s.reached {
      assert ReachedInv(s, k, c.node);
      assert TallyInv(s, k, c.node);
    }
  }

  /** No connection ever takes two copies of a message or one it must not get, and every copy
      is what was sent. */
  lemma AtMostOnce(s: Cluster, run: seq<Event>)
    requires Initial(s) && ValidRun(s, run)
    ensures var s' := Exec(s, run);
            && (forall c <- s'.boxes, m <- s'.boxes[c].log :: AsSent(s', m, c.node))
            && (forall c <- s'.boxes, k: nat | k < |s'.sent| :: CopiesOk(s', k, c))
  {
    RunKeepsInv(s, run);
    var s' := Exec(s, run);
    forall c <- s'.boxes, k: nat | k < |s'.sent| ensures CopiesOk(s', k, c) { InvMeansCopiesOk(s', k, c); }
    assert forall c <- s'.boxes :: LogInv(s', c);
  }

  /** Every published message is, for each node but its origin, either waiting once in that
      node's inbox or already delivered by it; when all inboxes are empty every node has
      delivered every published message. */
  lemma NothingIsLost(s: Cluster, run: seq<Event>)
    requires Initial(s) && ValidRun(s, run)
    ensures var s' := Exec(s, run);
            forall k: nat, n | k < |s'.sent| && n in s'.nodes ::
              && TallyInv(s', k, n)
              && (s'.sent[k].published && s'.nodes[n].inbox == [] ==> (k, n) in s'.reached)
  {
    RunKeepsInv(s, run);
    var s' := Exec(s, run);
    forall k: nat, n | k < |s'.sent| && n in s'.nodes
      ensures TallyInv(s', k, n)
      ensures s'.sent[k].published && s'.nodes[n].inbox == [] ==> (k, n) in s'.reached
    { assert TallyInv(s', k, n); }
  }

  // ---- A delivery is final ----

  /** Once a node delivered a message, nothing changes whom it delivered it to. */
  lemma StepKeepsReached(s: Cluster, ev: Event, k: nat, n: string)
    requires Inv(s) && Enabled(s, ev) && (k, n) in s.reached
    ensures (k, n) in Step(s, ev).reached && Step(s, ev).reached[(k, n)] == s.reached[(k, n)]
  {
    NewIsUnreached(s);
    if ev.TakeFrom? { TakeIsNew(s, ev.node, ev.index); }
  }

  lemma {:induction false} RunKeepsReached(s: Cluster, run: seq<Event>, k: nat, n: string)
    requires Inv(s) && ValidRun(s, run) && (k, n) in s.reached
    ensures (k, n) in Exec(s, run).reached && Exec(s, run).reached[(k, n)] == s.reached[(k, n)]
    decreases |run|
  {
    if run != [] {
      StepKeepsInv(s, run[0]);
      StepKeepsReached(s, run[0], k, n);
      RunKeepsReached(Step(s, run[0]), run[1..], k, n);
    }
  }

  /** Who should get `m` on a node: the members of its namespace but the sender, or the peer
      registered under its target; of these, the open connections with room. */
  ghost predicate Due(node: Node, boxes: Boxes, m: Message, c: Client) {
    && CanTake(boxes, c)
    && if m.kind == Broadcast then m.ns in node.spaces && c in node.spaces[m.ns].Values && c.peer.fingerprint != m.from
       else m.to != "" && m.to in node.registry && node.registry[m.to] == c
  }

  lemma DueIsTarget(node: Node, boxes: Boxes, m: Message, c: Client)
    ensures Due(node, boxes, m, c) <==> c in BrokerTargets(node, boxes, m)
  {
  }

  lemma ReachedForever(s: Cluster, run: seq<Event>, k: nat, c: Client)
    requires Inv(s) && ValidRun(s, run) && (k, c.node) in s.reached && c in Exec(s, run).boxes
    ensures Count(Exec(s, run).boxes[c].log, k) == if c in s.reached[(k, c.node)] then 1 else 0
  {
    RunKeepsInv(s, run);
    RunKeepsReached(s, run, k, c.node);
    var s' := Exec(s, run);
    assert ReachedInv(s', k, c.node);
    assert LogInv(s', c);
  }

  /** When a node takes another node's message, then on that node exactly the connections due
      to get it end up with one copy, in every continuation; all others end up with none. */
  lemma TakenExactlyOnce(s0: Cluster, before: seq<Event>, n: string, i: nat, after: seq<Event>, c: Client)
    requires Initial(s0) && ValidRun(s0, before)
    requires var s := Exec(s0, before); Enabled(s, TakeFrom(n, i)) && ValidRun(TakeStep(s, n, i), after)
    requires c.node == n && c in Exec(TakeStep(Exec(s0, before), n, i), after).boxes
    ensures var s := Exec(s0, before);
            var m := s.nodes[n].inbox[i];
            m.nodeId != n ==>
              Count(Exec(TakeStep(s, n, i), after).boxes[c].log, m.serial) ==
              if Due(s.nodes[n], s.boxes, m, c) then 1 else 0
  {
    RunKeepsInv(s0, before);
    var s := Exec(s0, before);
    var m := s.nodes[n].inbox[i];
    if m.nodeId != n {
      TakeKeepsInv(s, n, i);
      DueIsTarget(s.nodes[n], s.boxes, m, c);
      ReachedForever(TakeStep(s, n, i), after, m.serial, c);
    }
  }

  /** A node's own message that comes back from the broker reaches nobody. */
  lemma EchoIsIgnored(s0: Cluster, before: seq<Event>, n: string, i: nat)
    requires Initial(s0) && ValidRun(s0, before) && Enabled(Exec(s0, before), TakeFrom(n, i))
    ensures var s := Exec(s0, before);
            var m := s.nodes[n].inbox[i];
            && m.serial < |s.sent| && (m.nodeId == n <==> s.sent[m.serial].origin == n)
            && (m.nodeId == n <==> TakeStep(s, n, i).reached == s.reached)
            && (m.nodeId == n ==> TakeStep(s, n, i).boxes == s.boxes)
  {
    RunKeepsInv(s0, before);
    TakeIsNew(Exec(s0, before), n, i);
  }

  /** The sender's node admits a broadcast from the members of the namespace only. */
  ghost predicate MayBroadcast(s: Cluster, ev: Event)
    requires ev.BroadcastFrom? && ev.node in s.nodes
  {
    var spaces := s.nodes[ev.node].spaces;
    ev.ns in spaces && ev.client.peer.fingerprint in spaces[ev.ns]
  }

  /** A broadcast of a member reaches, on its own node, exactly the open members with room but
      its sender, once, in every continuation; a broadcast of anybody else reaches no
      connection of any node, ever. */
  lemma BroadcastExactlyOnce(s0: Cluster, before: seq<Event>, ev: Event, after: seq<Event>, c: Client)
    requires Initial(s0) && ValidRun(s0, before) && ev.BroadcastFrom?
    requires var s := Exec(s0, before); Enabled(s, ev) && ValidRun(Step(s, ev), after)
    requires c in Exec(Step(Exec(s0, before), ev), after).boxes
    ensures var s := Exec(s0, before);
            var copies := Count(Exec(Step(s, ev), after).boxes[c].log, |s.sent|);
            && (!MayBroadcast(s, ev) ==> copies == 0)
            && (MayBroadcast(s, ev) && c.node == ev.node ==>
                  copies == if && CanTake(s.boxes, c) && c in s.nodes[ev.node].spaces[ev.ns].Values
                               && c.peer.fingerprint != ev.client.peer.fingerprint then 1 else 0)
  {
    RunKeepsInv(s0, before);
    BroadcastFromOnce(Exec(s0, before), ev, after, c);
  }

  lemma BroadcastFromOnce(s: Cluster, ev: Event, after: seq<Event>, c: Client)
    requires Inv(s) && Enabled(s, ev) && ev.BroadcastFrom? && ValidRun(Step(s, ev), after)
    requires c in Exec(Step(s, ev), after).boxes
    ensures var copies := Count(Exec(Step(s, ev), after).boxes[c].log, |s.sent|);
            && (!MayBroadcast(s, ev) ==> copies == 0)
            && (MayBroadcast(s, ev) && c.node == ev.node ==>
                  copies == if && CanTake(s.boxes, c) && c in s.nodes[ev.node].spaces[ev.ns].Values
                               && c.peer.fingerprint != ev.client.peer.fingerprint then 1 else 0)
  {
    StepKeepsInv(s, ev);
    if c.node == ev.node {
      ReachedForever(Step(s, ev), after, |s.sent|, c);
    } else if !MayBroadcast(s, ev) {
      NeverPublished(Step(s, ev), after, |s.sent|, c);
    }
  }

  /** Whom a signal or relay names: an alias stands for its fingerprint. */
  ghost predicate Names(node: Node, to: string, fingerprint: string) {
    to != "" && fingerprint == if to in node.aliases then node.aliases[to] else to
  }

  /** Some namespace of the node has both peers as members. */
  ghost predicate Together(node: Node, p: Client, q: Client) {
    exists ns :: ns in node.spaces && p in node.spaces[ns].Values && q in node.spaces[ns].Values
  }

  /** A signal or relay that names nobody, or a peer registered on the sender's node: that peer
      has one copy in every continuation exactly if its connection can take it and some
      namespace of the node has both; no other connection of any node ever has one. */
  lemma LocalPointExactlyOnce(s0: Cluster, before: seq<Event>, ev: Event, after: seq<Event>, c: Client, to: string)
    requires Initial(s0) && ValidRun(s0, before) && ev.PointFrom?
    requires var s := Exec(s0, before); Enabled(s, ev) && ValidRun(Step(s, ev), after)
    requires var node := Exec(s0, before).nodes[ev.node];
             ev.to == "" || (Names(node, ev.to, to) && to in node.registry)
    requires c in Exec(Step(Exec(s0, before), ev), after).boxes
    ensures var s := Exec(s0, before);
            var node := s.nodes[ev.node];
            Count(Exec(Step(s, ev), after).boxes[c].log, |s.sent|) ==
            if && ev.to != "" && c == node.registry[to] && CanTake(s.boxes, c)
               && Together(node, ev.client, c) then 1 else 0
  {
    RunKeepsInv(s0, before);
    LocalPointFrom(Exec(s0, before), ev, after, c, to);
  }

  lemma LocalPointFrom(s: Cluster, ev: Event, after: seq<Event>, c: Client, to: string)
    requires Inv(s) && Enabled(s, ev) && ev.PointFrom? && ValidRun(Step(s, ev), after)
    requires var node := s.nodes[ev.node]; ev.to == "" || (Names(node, ev.to, to) && to in node.registry)
    requires c in Exec(Step(s, ev), after).boxes
    ensures var node := s.nodes[ev.node];
            Count(Exec(Step(s, ev), after).boxes[c].log, |s.sent|) ==
            if && ev.to != "" && c == node.registry[to] && CanTake(s.boxes, c)
               && Together(node, ev.client, c) then 1 else 0
  {
    StepKeepsInv(s, ev);
    LocalPointReaches(s, ev, to);
    UnpublishedForever(Step(s, ev), after, |s.sent|, ev.node, c);
  }

  /** A message that did not leave its node stays with those it was delivered to there. */
  lemma UnpublishedForever(s: Cluster, run: seq<Event>, k: nat, n: string, c: Client)
    requires Inv(s) && ValidRun(s, run) && c in Exec(s, run).boxes
    requires k < |s.sent| && !s.sent[k].published && s.sent[k].origin == n && (k, n) in s.reached
    ensures Count(Exec(s, run).boxes[c].log, k) == if c in s.reached[(k, n)] then 1 else 0
  {
    assert ReachedInv(s, k, n);
    if c.node == n {
      ReachedForever(s, run, k, c);
    } else {
      NeverPublished(s, run, k, c);
    }
  }

  lemma LocalPointReaches(s: Cluster, ev: Event, to: string)
    requires Inv(s) && Enabled(s, ev) && ev.PointFrom?
    requires var node := s.nodes[ev.node]; ev.to == "" || (Names(node, ev.to, to) && to in node.registry)
    ensures var (s', k, node) := (Step(s, ev), |s.sent|, s.nodes[ev.node]);
            && k < |s'.sent| && !s'.sent[k].published && s'.sent[k].origin == ev.node
            && (ev.to != "" ==> node.registry[to].node == ev.node)
            && (k, ev.node) in s'.reached
            && s'.reached[(k, ev.node)] ==
               if ev.to != "" && CanTake(s.boxes, node.registry[to]) && Together(node, ev.client, node.registry[to])
               then {node.registry[to]} else {}
  {
    assert NodeOk(s.nodes[ev.node], ev.node);
  }

  /** What a send puts on record, and what the broker gets: the sender's own fingerprint, the
      resolved target, and one stamped copy for every node exactly if it is a broadcast of a
      member, or a signal or relay to a fingerprint that is not registered here. */
  lemma SentAsAsked(s: Cluster, ev: Event, to: string)
    requires Enabled(s, ev) && (ev.BroadcastFrom? || ev.PointFrom?)
    requires ev.PointFrom? && ev.to != "" ==> Names(s.nodes[ev.node], ev.to, to)
    ensures var s' := Step(s, ev);
            var published := if ev.BroadcastFrom? then MayBroadcast(s, ev)
                             else ev.to != "" && to !in s.nodes[ev.node].registry;
            && |s'.sent| == |s.sent| + 1 && s'.sent[..|s.sent|] == s.sent && s'.nodes.Keys == s.nodes.Keys
            && var sent := s'.sent[|s.sent|];
               && sent.origin == ev.node && sent.published == published && sent.message.serial == |s.sent|
               && sent.message.from == ev.client.peer.fingerprint && sent.message.nodeId == ev.claimed
               && (ev.BroadcastFrom? ==> sent.message.kind == Broadcast && sent.message.ns == ev.ns)
               && (ev.PointFrom? ==> sent.message.kind == ev.kind && (ev.to != "" ==> sent.message.to == to))
               && forall n <- s.nodes ::
                    s'.nodes[n] == if published then s.nodes[n].(inbox := s.nodes[n].inbox + [sent.message.(nodeId := ev.node)])
                                   else s.nodes[n]
  {
  }

  /** A message that stays on its node reaches nobody elsewhere. */
  lemma NeverPublished(s: Cluster, run: seq<Event>, k: nat, c: Client)
    requires Inv(s) && ValidRun(s, run) && k < |s.sent| && c in Exec(s, run).boxes
    requires !s.sent[k].published && s.sent[k].origin != c.node
    ensures Count(Exec(s, run).boxes[c].log, k) == 0
  {
    RunKeepsInv(s, run);
    RunKeepsSent(s, run);
    InvMeansCopiesOk(Exec(s, run), k, c);
  }

  lemma {:induction false} RunKeepsSent(s: Cluster, run: seq<Event>)
    requires ValidRun(s, run)
    ensures s.sent <= Exec(s, run).sent
    decreases |run|
  {
    if run != [] { RunKeepsSent(Step(s, run[0]), run[1..]); }
  }

  // ---- A signal or relay to another node ----

  /** `to` is registered as `c` and nowhere else, and `c`'s connection takes messages. */
  ghost predicate OnlyAt(s: Cluster, to: string, c: Client) {
    && c.node in s.nodes && to in s.nodes[c.node].registry && s.nodes[c.node].registry[to] == c
    && CanTake(s.boxes, c)
    && forall n <- s.nodes | n != c.node :: to !in s.nodes[n].registry
  }

  ghost predicate Stays(s: Cluster, run: seq<Event>, to: string, c: Client)
    requires ValidRun(s, run)
    decreases |run|
  {
    OnlyAt(s, to, c) && (run == [] || Stays(Step(s, run[0]), run[1..], to, c))
  }

  /** Nodes that delivered message `k` delivered it to `c` or, elsewhere, to nobody. */
  ghost predicate OnlyTo(s: Cluster, k: nat, c: Client) {
    && k < |s.sent|
    && forall n | (k, n) in s.reached :: s.reached[(k, n)] == if n == c.node then {c} else {}
  }

  lemma TakeKeepsOnlyTo(s: Cluster, n: string, i: nat, k: nat, c: Client)
    requires Inv(s) && n in s.nodes && i < |s.nodes[n].inbox| && OnlyTo(s, k, c)
    requires s.sent[k].message.kind != Broadcast && s.sent[k].message.to != "" && OnlyAt(s, s.sent[k].message.to, c)
    ensures OnlyTo(TakeStep(s, n, i), k, c)
  {
    TakeIsNew(s, n, i);
    var m := s.nodes[n].inbox[i];
    if m.nodeId != n && m.serial == k {
      assert BrokerTargets(s.nodes[n], s.boxes, m) == if n == c.node then {c} else {};
    }
  }

  lemma StepKeepsOnlyTo(s: Cluster, ev: Event, k: nat, c: Client)
    requires Inv(s) && Enabled(s, ev) && OnlyTo(s, k, c)
    requires s.sent[k].message.kind != Broadcast && s.sent[k].message.to != "" && OnlyAt(s, s.sent[k].message.to, c)
    ensures OnlyTo(Step(s, ev), k, c) && Step(s, ev).sent[k] == s.sent[k]
  {
    match ev {
      case TakeFrom(n, i) => TakeKeepsOnlyTo(s, n, i, k, c);
      case BroadcastFrom(n, d, ns, claimed) => BroadcastAddsOnly(s, n, d, ns, claimed);
      case PointFrom(n, d, kind, to, claimed) => PointAddsOnly(s, n, d, kind, to, claimed);
      case Change(_, _) =>
    }
  }

  lemma BroadcastAddsOnly(s: Cluster, n: string, c: Client, ns: string, claimed: string)
    requires n in s.nodes
    ensures var s' := BroadcastStep(s, n, c, ns, claimed);
            s.sent <= s'.sent && forall k: nat, l | k < |s.sent| ::
              ((k, l) in s'.reached <==> (k, l) in s.reached) && ((k, l) in s.reached ==> s'.reached[(k, l)] == s.reached[(k, l)])
  {
  }

  lemma PointAddsOnly(s: Cluster, n: string, c: Client, kind: Kind, to: string, claimed: string)
    requires n in s.nodes
    ensures var s' := PointStep(s, n, c, kind, to, claimed);
            s.sent <= s'.sent && forall k: nat, l | k < |s.sent| ::
              ((k, l) in s'.reached <==> (k, l) in s.reached) && ((k, l) in s.reached ==> s'.reached[(k, l)] == s.reached[(k, l)])
  {
  }

  lemma {:induction false} RunKeepsOnlyTo(s: Cluster, run: seq<Event>, k: nat, c: Client)
    requires Inv(s) && ValidRun(s, run) && OnlyTo(s, k, c)
    requires s.sent[k].message.kind != Broadcast && s.sent[k].message.to != "" && Stays(s, run, s.sent[k].message.to, c)
    ensures OnlyTo(Exec(s, run), k, c) && Exec(s, run).sent[k] == s.sent[k]
    decreases |run|
  {
    if run != [] {
      StepKeepsInv(s, run[0]);
      StepKeepsOnlyTo(s, run[0], k, c);
      RunKeepsOnlyTo(Step(s, run[0]), run[1..], k, c);
    }
  }

  /** A signal or relay to a fingerprint registered on exactly one other node: from the send
      on, its target's copies plus those waiting for the target's node are one, and no other
      connection of any node ever takes a copy. */
  lemma RemotePointExactlyOnce(s0: Cluster, before: seq<Event>, ev: Event, after: seq<Event>, c: Client, to: string)
    requires Initial(s0) && ValidRun(s0, before) && ev.PointFrom? && ev.to != ""
    requires var s := Exec(s0, before);
             && Enabled(s, ev) && ValidRun(Step(s, ev), after)
             && Names(s.nodes[ev.node], ev.to, to) && to != "" && to !in s.nodes[ev.node].registry
             && Stays(Step(s, ev), after, to, c)
    ensures var k := |Exec(s0, before).sent|;
            var s' := Exec(Step(Exec(s0, before), ev), after);
            && c in s'.boxes && c.node in s'.nodes
            && Count(s'.boxes[c].log, k) + Count(s'.nodes[c.node].inbox, k) == 1
            && forall d <- s'.boxes | d != c :: Count(s'.boxes[d].log, k) == 0
  {
    RunKeepsInv(s0, before);
    RemotePointFrom(Exec(s0, before), ev, after, c, to);
  }

  lemma RemotePointFrom(s: Cluster, ev: Event, after: seq<Event>, c: Client, to: string)
    requires Inv(s) && Enabled(s, ev) && ev.PointFrom? && ev.to != "" && ValidRun(Step(s, ev), after)
    requires Names(s.nodes[ev.node], ev.to, to) && to != "" && to !in s.nodes[ev.node].registry
    requires Stays(Step(s, ev), after, to, c)
    ensures var s' := Exec(Step(s, ev), after);
            && c in s'.boxes && c.node in s'.nodes
            && Count(s'.boxes[c].log, |s.sent|) + Count(s'.nodes[c.node].inbox, |s.sent|) == 1
            && forall d <- s'.boxes | d != c :: Count(s'.boxes[d].log, |s.sent|) == 0
  {
    var k := |s.sent|;
    NewIsUnreached(s);
    StepKeepsInv(s, ev);
    var s1 := Step(s, ev);
    assert OnlyAt(s1, s1.sent[k].message.to, c);
    RunKeepsOnlyTo(s1, after, k, c);
    RunKeepsInv(s1, after);
    StaysToTheEnd(s1, after, s1.sent[k].message.to, c);
    OnlyToMeansOnce(Exec(s1, after), k, c);
  }

  lemma {:induction false} StaysToTheEnd(s: Cluster, run: seq<Event>, to: string, c: Client)
    requires ValidRun(s, run) && Stays(s, run, to, c)
    ensures OnlyAt(Exec(s, run), to, c)
    decreases |run|
  {
    if run != [] { StaysToTheEnd(Step(s, run[0]), run[1..], to, c); }
  }

  lemma OnlyToMeansOnce(s: Cluster, k: nat, c: Client)
    requires Inv(s) && OnlyTo(s, k, c) && c in s.boxes && c.node in s.nodes
    requires s.sent[k].published && s.sent[k].origin != c.node
    ensures Count(s.boxes[c].log, k) + Count(s.nodes[c.node].inbox, k) == 1
    ensures forall d <- s.boxes | d != c :: Count(s.boxes[d].log, k) == 0
  {
    assert TallyInv(s, k, c.node);
    assert LogInv(s, c);
    forall d <- s.boxes | d != c ensures Count(s.boxes[d].log, k) == 0 { assert LogInv(s, d); }
  }

  // ---- Buffers ----

  /** Messages taken and slots left, together. */
  function Capacity(s: Cluster, c: Client): int
    requires c in s.boxes
  {
    |s.boxes[c].log| + s.boxes[c].free
  }

  lemma SendKeepsCapacity(boxes: Boxes, targets: set<Client>, m: Message, c: Client)
    requires c in boxes
    ensures var boxes' := Send(boxes, targets, m);
            && c in boxes' && |boxes'[c].log| + boxes'[c].free == |boxes[c].log| + boxes[c].free
            && boxes'[c].open == boxes[c].open && boxes[c].log <= boxes'[c].log
  {
  }

  /** Every message that a connection takes costs it one slot, and it forgets none: as long as
      nothing else happens to it, messages taken and slots left add up to the same. */
  lemma {:induction false} CapacityKept(s: Cluster, run: seq<Event>, c: Client)
    requires ValidRun(s, run) && c in s.boxes && forall ev <- run :: !ev.Change?
    ensures var s' := Exec(s, run);
            && c in s'.boxes && Capacity(s', c) == Capacity(s, c)
            && s.boxes[c].log <= s'.boxes[c].log && s'.boxes[c].open == s.boxes[c].open
    decreases |run|
  {
    if run != [] {
      assert run[0] in run;
      StepKeepsCapacity(s, run[0], c);
      CapacityKept(Step(s, run[0]), run[1..], c);
    }
  }

  lemma StepKeepsCapacity(s: Cluster, ev: Event, c: Client)
    requires Enabled(s, ev) && c in s.boxes && !ev.Change?
    ensures var s' := Step(s, ev);
            && c in s'.boxes && Capacity(s', c) == Capacity(s, c)
            && s.boxes[c].log <= s'.boxes[c].log && s'.boxes[c].open == s.boxes[c].open
  {
    match ev {
      case TakeFrom(n, i) =>
        var m := s.nodes[n].inbox[i];
        SendKeepsCapacity(s.boxes, BrokerTargets(s.nodes[n], s.boxes, m), m.(nodeId := ""), c);
      case _ =>
    }
  }
}
