/**
 The sharded peer registry of a hub and its counter (hub/hub.go, lines 84-188), with
 handlers that run without interruption. RegisterRace interleaves them.
 */
module Registry {
  import opened Wrappers
  import opened Bits
  import opened Sharding
  import opened Peers

  // ---- The shard index ----

  /** The value of a hexadecimal digit; other characters count as zero. */
  function Nibble(c: char): (v: nat)
    ensures v < 16
  {
    if '0' <= c <= '9' then c as int - '0' as int
    else if 'a' <= c <= 'f' then c as int - 'a' as int + 10
    else if 'A' <= c <= 'F' then c as int - 'A' as int + 10
    else 0
  }

  /** The digits of a string as a number in base 16. */
  function HexValue(s: string): nat {
    if s == [] then 0 else HexValue(s[..|s| - 1]) * 16 + Nibble(s[|s| - 1])
  }

  function ShardIndex(fingerprint: string, shardCount: nat): (i: nat)
    requires 0 < shardCount
    ensures i < shardCount
  {
    if |fingerprint| >= 4 then BitAnd(HexValue(fingerprint[..4]), shardCount - 1) else 0
  }

  /** `shardFor`: the index is computed digit by digit, and the 32-bit accumulator never
      overflows. */
  method ShardFor(fingerprint: string, shardCount: nat) returns (i: nat)
    requires 0 < shardCount
    ensures i == ShardIndex(fingerprint, shardCount) < shardCount
  {
    if |fingerprint| < 4 { return 0; }
    var idx := 0;
    for k := 0 to 4
      invariant idx == HexValue(fingerprint[..k]) < Power16(k)
    {
      assert fingerprint[..k + 1][..k] == fingerprint[..k];
      idx := idx * 16 + Nibble(fingerprint[k]);
    }
    assert idx < 0x1_0000;
    return BitAnd(idx, shardCount - 1);
  }

  function Power16(k: nat): nat {
    if k == 0 then 1 else 16 * Power16(k - 1)
  }

  /** With a power of two of shards, masking is the remainder: fingerprints spread over all. */
  lemma ShardIndexIsMod(fingerprint: string, k: nat)
    requires |fingerprint| >= 4
    ensures ShardIndex(fingerprint, Pow2(k)) == HexValue(fingerprint[..4]) % Pow2(k)
  {
    MaskIsMod(HexValue(fingerprint[..4]), k);
  }

  const LOWER := "0123456789abcdef"
  const UPPER := "0123456789ABCDEF"

  /** Four hexadecimal digits, in either case of letters. */
  function Hex4(a: nat, b: nat, c: nat, d: nat, digits: string): string
    requires a < 16 && b < 16 && c < 16 && d < 16 && |digits| == 16
  {
    [digits[a], digits[b], digits[c], digits[d]]
  }

  lemma NibbleOfDigit(d: nat, digits: string)
    requires d < 16 && (digits == LOWER || digits == UPPER)
    ensures Nibble(digits[d]) == d
  {
  }

  /** The accumulator reads hexadecimal, most significant digit first. */
  lemma HexIsPositional(a: nat, b: nat, c: nat, d: nat, digits: string)
    requires a < 16 && b < 16 && c < 16 && d < 16 && (digits == LOWER || digits == UPPER)
    ensures HexValue(Hex4(a, b, c, d, digits)) == 4096 * a + 256 * b + 16 * c + d
  {
    var s := Hex4(a, b, c, d, digits);
    NibbleOfDigit(a, digits);
    NibbleOfDigit(b, digits);
    NibbleOfDigit(c, digits);
    NibbleOfDigit(d, digits);
    FourDigits(s);
  }

  lemma FourDigits(s: string)
    requires |s| == 4
    ensures HexValue(s) == 4096 * Nibble(s[0]) + 256 * Nibble(s[1]) + 16 * Nibble(s[2]) + Nibble(s[3])
  {
    assert s[..3][..2] == s[..2] && s[..2][..1] == s[..1] && s[..1][..0] == [];
    assert HexValue(s[..1]) == Nibble(s[0]);
    assert HexValue(s[..2]) == HexValue(s[..1]) * 16 + Nibble(s[1]);
    assert HexValue(s[..3]) == HexValue(s[..2]) * 16 + Nibble(s[2]);
  }

  lemma DigitsOf(n: nat) returns (a: nat, b: nat, c: nat, d: nat)
    requires n < 65536
    ensures a < 16 && b < 16 && c < 16 && d < 16 && n == 4096 * a + 256 * b + 16 * c + d
  {
    var (x, y, z) := (n / 16, n / 256, n / 4096);
    a, b, c, d := z, y % 16, x % 16, n % 16;
    assert x / 16 == y && y / 16 == z;
  }

  /** With a power of two of at most 65536 shards no shard is out of reach. */
  lemma EveryShardIsUsed(k: nat, i: nat) returns (fingerprint: string)
    requires i < Pow2(k) <= 65536
    ensures |fingerprint| >= 4 && ShardIndex(fingerprint, Pow2(k)) == i
  {
    var a, b, c, d := DigitsOf(i);
    fingerprint := Hex4(a, b, c, d, LOWER);
    HexIsPositional(a, b, c, d, LOWER);
    assert fingerprint[..4] == fingerprint;
    MaskIsMod(i, k);
    SmallMod(i, Pow2(k));
  }

  lemma SmallMod(i: nat, n: nat)
    requires i < n
    ensures i % n == i
  {
  }

  // ---- The registry as a flat map ----

  datatype Registered = Accepted | Replaced(previous: Peer) | Refused

  /** What `Register` answers, and the map it leaves. */
  function RegisterAnswer(flat: map<string, Peer>, p: Peer, maxPeers: int): Registered {
    if p.fingerprint in flat then Replaced(flat[p.fingerprint])
    else if |flat| >= maxPeers then Refused
    else Accepted
  }

  function RegisterFlat(flat: map<string, Peer>, p: Peer, maxPeers: int): map<string, Peer> {
    if RegisterAnswer(flat, p, maxPeers).Refused? then flat else flat[p.fingerprint := p]
  }

  // ---- The registry as an object ----

  class Registry {
    const maxPeers: int
    const index: string -> nat
    var shards: seq<map<string, Peer>>
    var peerCount: int
    /** The map that all shards together stand for. */
    ghost var flat: map<string, Peer>

    /** The shards simulate the flat map, and the counter its size. */
    ghost predicate Valid()
      reads this
    {
      Represents(shards, index, flat) && peerCount == |flat|
    }

    constructor (shardCount: nat, maxPeers: int)
      requires 0 < shardCount
      ensures Valid() && flat == map[] && this.maxPeers == maxPeers
      ensures index == (fp => ShardIndex(fp, shardCount))
    {
      this.maxPeers := maxPeers;
      var f: string -> nat := fp => ShardIndex(fp, shardCount);
      assert forall fp :: f(fp) < shardCount by {
        forall fp ensures f(fp) < shardCount { assert f(fp) == ShardIndex(fp, shardCount); }
      }
      index := f;
      shards, peerCount, flat := seq(shardCount, _ => map[]), 0, map[];
    }

    method Register(p: Peer) returns (answer: Registered)
      requires Valid()
      modifies this
      ensures Valid()
      ensures answer == RegisterAnswer(old(flat), p, maxPeers)
      ensures flat == RegisterFlat(old(flat), p, maxPeers)
    {
      var fp := p.fingerprint;
      var i := index(fp);
      Lookup(shards, index, flat, fp);
      var current := peerCount;
      if fp in shards[i] {
        answer := Replaced(shards[i][fp]);
        Put(p);
        return;
      }
      if current >= maxPeers {
        return Refused;
      }
      Put(p);
      peerCount := peerCount + 1;
      return Accepted;
    }

    /** The map assignment inside `Register`. */
    method Put(p: Peer)
      requires Represents(shards, index, flat)
      modifies this`shards, this`flat
      ensures Represents(shards, index, flat) && flat == old(flat)[p.fingerprint := p]
    {
      var i := index(p.fingerprint);
      Store(shards, index, flat, p.fingerprint, p);
      shards, flat := shards[i := shards[i][p.fingerprint := p]], flat[p.fingerprint := p];
    }

    /** The part of `Unregister` that touches the registry. */
    method Unregister(fingerprint: string) returns (removed: Option<Peer>)
      requires Valid()
      modifies this
      ensures Valid() && flat == old(flat) - {fingerprint}
      ensures removed == if fingerprint in old(flat) then Some(old(flat)[fingerprint]) else None
    {
      var i := index(fingerprint);
      Lookup(shards, index, flat, fingerprint);
      if fingerprint !in shards[i] {
        assert flat - {fingerprint} == flat;
        return None;
      }
      removed := Some(shards[i][fingerprint]);
      Drop(shards, index, flat, i, {fingerprint});
      assert |flat - {fingerprint}| == |flat| - 1 by { SizeWithout(flat, fingerprint); }
      shards, flat := shards[i := shards[i] - {fingerprint}], flat - {fingerprint};
      peerCount := peerCount - 1;
    }

    method GetPeer(fingerprint: string) returns (p: Option<Peer>)
      requires Valid()
      ensures p == if fingerprint in flat then Some(flat[fingerprint]) else None
    {
      var i := index(fingerprint);
      Lookup(shards, index, flat, fingerprint);
      p := if fingerprint in shards[i] then Some(shards[i][fingerprint]) else None;
    }
  }

  lemma SizeWithout(m: map<string, Peer>, k: string)
    requires k in m
    ensures |m - {k}| == |m| - 1
  {
    assert (m - {k}).Keys == m.Keys - {k};
    assert |(m - {k}).Keys| == |m.Keys| - 1;
  }

  /** Who is registered after a registration: the peer itself exactly if its fingerprint was
      registered or there was room, and everybody with another fingerprint as before. */
  lemma RegisterEffect(flat: map<string, Peer>, p: Peer, maxPeers: int, f: string)
    ensures var (answer, flat') := (RegisterAnswer(flat, p, maxPeers), RegisterFlat(flat, p, maxPeers));
            && (f != p.fingerprint ==> (f in flat' <==> f in flat) && (f in flat ==> flat'[f] == flat[f]))
            && (answer.Refused? <==> p.fingerprint !in flat && |flat| >= maxPeers)
            && (answer.Replaced? <==> p.fingerprint in flat)
            && (answer.Replaced? ==> answer.previous == flat[p.fingerprint])
            && (if answer.Refused? then flat' == flat else p.fingerprint in flat' && flat'[p.fingerprint] == p)
  {
  }

  /** Registrations never take the registry over its limit, whatever came before. */
  lemma LimitKept(flat: map<string, Peer>, p: Peer, maxPeers: int)
    requires |flat| <= maxPeers
    ensures |RegisterFlat(flat, p, maxPeers)| <= maxPeers
    ensures p.fingerprint !in flat && |flat| < maxPeers ==> |RegisterFlat(flat, p, maxPeers)| == |flat| + 1
  {
    assert flat[p.fingerprint := p].Keys == flat.Keys + {p.fingerprint};
    if p.fingerprint in flat {
      assert flat.Keys + {p.fingerprint} == flat.Keys;
      assert |flat[p.fingerprint := p].Keys| == |flat.Keys|;
    } else {
      assert |flat[p.fingerprint := p].Keys| == |flat.Keys| + 1;
    }
  }
}
