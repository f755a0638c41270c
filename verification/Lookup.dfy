/** Longest-prefix match over the Loc-RIB keys (src/rib.rs, `longest_match`). */
module Lookup {
  import opened Wire
  import opened Prefixes
  import Updates

  /** The covering key of greatest length, the last of them when several tie, in the
      iteration order `keys` of the hash map. */
  function LongestMatch(keys: seq<Prefix>, addr: u32): Option<Prefix> {
    if keys == [] then None
    else
      var last := keys[|keys| - 1];
      var best := LongestMatch(keys[..|keys| - 1], addr);
      if CoversByShift(last, addr) && (best.Some? ==> best.value.prefixLen <= last.prefixLen) then Some(last)
      else best
  }

  ghost predicate LengthsInRange(keys: set<Prefix>) {
    forall k :: k in keys ==> k.prefixLen <= 32
  }

  /** A hash map's iteration order: every key, once. */
  ghost predicate Enumerates(order: seq<Prefix>, keys: set<Prefix>) {
    && (forall k :: k in order <==> k in keys)
    && (forall i, j :: 0 <= i < j < |order| ==> order[i] != order[j])
  }

  lemma {:induction false} MatchInOrder(order: seq<Prefix>, addr: u32)
    ensures var r := LongestMatch(order, addr);
            && (r.Some? ==> r.value in order && CoversByShift(r.value, addr))
            && (forall k :: k in order && CoversByShift(k, addr) ==> r.Some? && k.prefixLen <= r.value.prefixLen)
  {
    hide CoversByShift;
    if order != [] {
      var n := |order| - 1;
      MatchInOrder(order[..n], addr);
      assert order == order[..n] + [order[n]];
    }
  }

  /** For keys of every length: the answer is a key that passes the code's test, at least as long as
      every key that does, and absent exactly when none does. For lengths up to 32 passing the test
      is containing the address. */
  lemma LongestMatchIsLongest(order: seq<Prefix>, keys: set<Prefix>, addr: u32)
    requires Enumerates(order, keys)
    ensures var r := LongestMatch(order, addr);
            && (r.Some? ==> r.value in keys && CoversByShift(r.value, addr))
            && (forall k :: k in keys && CoversByShift(k, addr) ==> r.Some? && k.prefixLen <= r.value.prefixLen)
            && (r.None? <==> forall k :: k in keys ==> !CoversByShift(k, addr))
    ensures forall k :: k in keys && k.prefixLen <= 32 ==> (CoversByShift(k, addr) <==> Member(addr, k))
  {
    hide CoversByShift, Member;
    MatchInOrder(order, addr);
    forall k | k in keys && k.prefixLen <= 32 ensures CoversByShift(k, addr) <==> Member(addr, k) {
      ShiftIsNetwork(k, addr);
    }
  }

  // ----- When the answer does not depend on the iteration order -----

  ghost predicate OrderIndependent(keys: set<Prefix>, addr: u32) {
    forall o, o' :: Enumerates(o, keys) && Enumerates(o', keys) ==> LongestMatch(o, addr) == LongestMatch(o', addr)
  }

  /** Two keys of one length cover the address, and no covering key is longer. */
  ghost predicate TopTwins(keys: set<Prefix>, addr: u32, p: Prefix, q: Prefix) {
    && p in keys && q in keys && p != q && p.prefixLen == q.prefixLen
    && CoversByShift(p, addr) && CoversByShift(q, addr)
    && forall k :: k in keys && CoversByShift(k, addr) ==> k.prefixLen <= p.prefixLen
  }

  lemma {:induction false} SomeOrder(keys: set<Prefix>) returns (order: seq<Prefix>)
    ensures Enumerates(order, keys)
    decreases keys
  {
    if keys == {} {
      order := [];
    } else {
      var k :| k in keys;
      var front := SomeOrder(keys - {k});
      order := front + [k];
    }
  }

  /** A longest covering key is the answer in an order that visits it last. */
  lemma AnswerInSomeOrder(keys: set<Prefix>, addr: u32, p: Prefix) returns (order: seq<Prefix>)
    requires p in keys && CoversByShift(p, addr)
    requires forall k :: k in keys && CoversByShift(k, addr) ==> k.prefixLen <= p.prefixLen
    ensures Enumerates(order, keys) && LongestMatch(order, addr) == Some(p)
  {
    hide CoversByShift;
    var front := SomeOrder(keys - {p});
    order := front + [p];
    assert order[..|front|] == front;
    MatchInOrder(front, addr);
  }

  /** For every table of keys, of any lengths: the answer depends on the iteration order exactly when
      two keys of one length are the longest that cover the address. */
  lemma OrderIndependentIff(keys: set<Prefix>, addr: u32)
    ensures OrderIndependent(keys, addr) <==> !exists p, q :: TopTwins(keys, addr, p, q)
  {
    hide CoversByShift, LongestMatch;
    if p, q :| TopTwins(keys, addr, p, q) {
      var o := AnswerInSomeOrder(keys, addr, p);
      var o' := AnswerInSomeOrder(keys, addr, q);
    }
    forall o, o' | Enumerates(o, keys) && Enumerates(o', keys) && LongestMatch(o, addr) != LongestMatch(o', addr)
      ensures exists p, q :: TopTwins(keys, addr, p, q)
    {
      MatchInOrder(o, addr);
      MatchInOrder(o', addr);
      assert TopTwins(keys, addr, LongestMatch(o, addr).value, LongestMatch(o', addr).value);
    }
  }

  /** The bits of the address below the prefix length are zero. */
  predicate HostBitsClear(k: Prefix)
    requires k.prefixLen <= 32
  {
    Clear(k.address, 32 - k.prefixLen) == k.address
  }

  lemma SameNetworkSameKey(k: Prefix, k': Prefix, addr: u32)
    requires k.prefixLen == k'.prefixLen <= 32
    requires Member(addr, k) && Member(addr, k') && HostBitsClear(k) && HostBitsClear(k')
    ensures k == k'
  {
    ClearIsNetwork(k.address, k'.address, 32 - k.prefixLen);
  }

  /** With clear host bits covering keys form a chain, so no table of such keys is ambiguous. */
  lemma LongestMatchUnique(keys: set<Prefix>, addr: u32)
    requires LengthsInRange(keys) && forall k :: k in keys ==> HostBitsClear(k)
    ensures OrderIndependent(keys, addr)
  {
    hide CoversByShift, Member, HostBitsClear, OrderIndependent;
    OrderIndependentIff(keys, addr);
    if p, q :| TopTwins(keys, addr, p, q) {
      ShiftIsNetwork(p, addr);
      ShiftIsNetwork(q, addr);
      SameNetworkSameKey(p, q, addr);
    }
  }

  /** The UPDATE parser keeps host bits that lie within the octets sent, so it yields two keys for one
      network, and between them longest match is ambiguous. */
  lemma ParsedTwinsAmbiguous()
    ensures var p, q := Prefix(0x0A000000, 31), Prefix(0x0A000001, 31);
            && Updates.ParsePrefix([31, 10, 0, 0, 0]) == Ok((p, []))
            && Updates.ParsePrefix([31, 10, 0, 0, 1]) == Ok((q, []))
            && !OrderIndependent({p, q}, 0x0A000001)
  {
    hide CoversByShift, OrderIndependent, Updates.ParsePrefix;
    ParsedTwins();
    TwinsCover();
    var p, q := Prefix(0x0A000000, 31), Prefix(0x0A000001, 31);
    OrderIndependentIff({p, q}, 0x0A000001);
    assert TopTwins({p, q}, 0x0A000001, p, q);
  }

  lemma ParsedTwins()
    ensures Updates.ParsePrefix([31, 10, 0, 0, 0]) == Ok((Prefix(0x0A000000, 31), []))
    ensures Updates.ParsePrefix([31, 10, 0, 0, 1]) == Ok((Prefix(0x0A000001, 31), []))
  {
    var a, b: seq<byte> := [31, 10, 0, 0, 0], [31, 10, 0, 0, 1];
    assert a[1..5] + Updates.ZEROS[4..] == [10, 0, 0, 0];
    assert b[1..5] + Updates.ZEROS[4..] == [10, 0, 0, 1];
    assert [10, 0, 0, 0][2..] == [0, 0] && [10, 0, 0, 1][2..] == [0, 1];
  }

  lemma TwinsCover()
    ensures CoversByShift(Prefix(0x0A000000, 31), 0x0A000001)
    ensures CoversByShift(Prefix(0x0A000001, 31), 0x0A000001)
  {
    assert Shr(0x0A000001, 1) == Shr(0x0A000000, 1) == 0x05000000;
  }
}
