/**
 What `get` and `getAll` show (packages/peer-client/src/sync.ts, lines 89-150): reads follow
 writes, on one replica and over every run of many.
 */
module Reads {
  import opened Wrappers
  import opened Hlc
  import opened StateSync
  import opened Replication
  import opened Convergence

  /** `get` is `getAll` at one key. */
  lemma GetAgreesWithGetAll(state: Store, key: string)
    ensures Get(state, key) == if key in GetAll(state) then GetAll(state)[key] else Undefined
    ensures key in GetAll(state) <==> key in state && !state[key].deleted
  {
  }

  /** After a `set` the key reads as the value, after a `delete` as undefined and absent; every
      other key reads as before. */
  lemma ReadAfterWrite(r: Replica, key: string, value: Value, deleted: bool, now: int, other: string)
    ensures var state := Write(r, key, value, deleted, now).state;
            && Get(state, key) == (if deleted then Undefined else value)
            && (key in GetAll(state) <==> !deleted)
            && (other != key ==> Get(state, other) == Get(r.state, other)
                                 && (other in GetAll(state) <==> other in GetAll(r.state)))
  {
  }

  /** What a write puts on the wire and on record: what was asked, from whom, under the stamp. */
  lemma WrittenAsAsked(s: System, n: string, key: string, value: Value, deleted: bool, now: int)
    requires n in s.nodes
    ensures var s' := Step(s, LocalWrite(n, key, value, deleted, now));
            && |s'.log| == |s.log| + 1
            && var e := s'.log[|s.log|].entry;
               && e.key == key && e.deleted == deleted && e.value == (if deleted then Undefined else value)
               && e.from == s.nodes[n].replica.node && e.version == e.hlc.counter
               && s'.nodes[n].replica.hlc == e.hlc && e.hlc.node == s.nodes[n].replica.node
               && exists p <- s'.net :: p.payload == if deleted then DeleteOp(Some(e)) else UpdateOp(Some(e))
  {
    var s' := Step(s, LocalWrite(n, key, value, deleted, now));
    var e := s'.log[|s.log|].entry;
    var p := Packet(if deleted then DeleteOp(Some(e)) else UpdateOp(Some(e)), s'.nodes[n].past, s'.nodes[n].heard);
    assert p in s'.net;
  }

  /** The greatest-stamped of some entries. */
  ghost predicate IsGreatest(e: Entry, es: set<Entry>) {
    e in es && forall x <- es :: x == e || Less(x.hlc, e.hlc)
  }

  /** On every run a key reads as the value of the greatest-stamped entry that its node wrote or
      received for it, and as undefined if that is a delete or there is none. */
  lemma ReadsAreLatest(run: seq<Event>, n: string, key: string)
    requires ValidRun(Empty, run) && n in Exec(Empty, run).nodes
    ensures var node := Exec(Empty, run).nodes[n];
            var about := About(node.seen, key);
            var state := node.replica.state;
            && (about == {} ==> Get(state, key) == Undefined && key !in GetAll(state))
            && (about != {} ==> exists e :: IsGreatest(e, about))
            && (forall e | IsGreatest(e, about) ::
                  && Get(state, key) == (if e.deleted then Undefined else e.value)
                  && (key in GetAll(state) <==> !e.deleted))
  {
    RunKeepsInv(Empty, run);
    var s := Exec(Empty, run);
    assert NodeInv(s, n);
    LatestReads(s.log, s.nodes[n].replica.state, s.nodes[n].seen, key);
  }

  lemma LatestReads(log: seq<LogItem>, state: Store, seen: set<Entry>, key: string)
    requires IsLatest(state, seen) && DistinctStamps(log) && seen <= Logged(log)
    ensures key in state <==> About(seen, key) != {}
    ensures key in state ==> IsGreatest(state[key], About(seen, key))
    ensures forall e | IsGreatest(e, About(seen, key)) :: key in state && e == state[key]
  {
    var about := About(seen, key);
    if key in state {
      forall x <- about ensures x == state[key] || Less(x.hlc, state[key].hlc) {
        CompareTotal(x.hlc, state[key].hlc);
        if x.hlc == state[key].hlc { StampIdentifies(log, x, state[key]); }
      }
      assert state[key] in about;
    } else {
      assert forall x <- about :: false;
    }
    forall e | IsGreatest(e, about) ensures key in state && e == state[key] {
      assert e in seen;
      CompareTotal(e.hlc, state[key].hlc);
    }
  }

  /** A node reads its own write at once, in every reachable state and at every clock reading. */
  lemma ReadYourWrite(run: seq<Event>, n: string, key: string, value: Value, deleted: bool, now: int)
    requires ValidRun(Empty, run) && n in Exec(Empty, run).nodes
    ensures var s' := Step(Exec(Empty, run), LocalWrite(n, key, value, deleted, now));
            && Get(s'.nodes[n].replica.state, key) == (if deleted then Undefined else value)
            && forall m <- s'.nodes | m != n :: s'.nodes[m] == Exec(Empty, run).nodes[m]
  {
    ReadAfterWrite(Exec(Empty, run).nodes[n].replica, key, value, deleted, now, key);
  }

  /** A purge changes no answer, drops every tombstone older than a minute and nothing else. */
  lemma PurgeEffect(r: Replica, now: int, key: string)
    ensures var r' := Purge(r, now);
            && Get(r'.state, key) == Get(r.state, key) && r'.hlc == r.hlc && r'.node == r.node
            && (key in r'.state <==> key in r.state && !(r.state[key].deleted && now - r.state[key].hlc.ts > 60000))
            && (key in r'.state ==> r'.state[key] == r.state[key])
  {
  }

  /** An update or delete that is received: its key reads as it says exactly if it is later than
      what is stored, every other key as before, and the clock passes its stamp. */
  lemma ReadAfterReceive(r: Replica, e: Entry, now: int, other: string)
    ensures var r' := Handle(r, UpdateOp(Some(e)), [now]);
            && r' == Handle(r, DeleteOp(Some(e)), [now]) == Handle(r, FullState([Some(e)]), [now])
            && (if e.key !in r.state || Compare(e.hlc, r.state[e.key].hlc) > 0
                then Get(r'.state, e.key) == (if e.deleted then Undefined else e.value)
                else Get(r'.state, e.key) == Get(r.state, e.key))
            && (other != e.key ==> Get(r'.state, other) == Get(r.state, other))
            && Advances(e.hlc, r'.hlc) && Advances(r.hlc, r'.hlc) && r'.hlc.node == r.node
  {
    assert [Some(e)][..0] == [] && [now][..0] == [];
    assert ReceiveAll(r, [Some(e)], [now]) == Receive(r, e, now);
  }
}
