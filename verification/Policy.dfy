/** First-match prefix lists (src/policy.rs), on entries whose prefix text is already parsed. */
module Policy {
  import opened Wire
  import opened Prefixes

  datatype FilterAction = Permit | Deny

  /** `network` is None when the entry's text does not parse; such an entry matches nothing. */
  datatype Entry = Entry(action: FilterAction, network: Option<Prefix>, ge: Option<byte>, le: Option<byte>)

  datatype PrefixList = PrefixList(name: string, entries: seq<Entry>)

  predicate MatchesEntry(e: Entry, p: Prefix) {
    e.network.Some?
    && IsSubnet(p, e.network.value)
    && (e.ge.Some? ==> p.prefixLen >= e.ge.value)
    && (e.le.Some? ==> p.prefixLen <= e.le.value)
    && (e.ge.None? && e.le.None? ==> p.prefixLen == e.network.value.prefixLen)
  }

  /** The verdict: the action of the first matching entry, deny when there is none. */
  function Evaluate(entries: seq<Entry>, p: Prefix): bool {
    if entries == [] then false
    else if MatchesEntry(entries[0], p) then entries[0].action == Permit
    else Evaluate(entries[1..], p)
  }

  method EvaluatePrefixList(list: PrefixList, p: Prefix) returns (accept: bool)
    ensures accept == Evaluate(list.entries, p)
    ensures accept <==> exists i :: 0 <= i < |list.entries| && FirstMatch(list.entries, p, i) && list.entries[i].action == Permit
  {
    var entries := list.entries;
    for i := 0 to |entries|
      invariant forall j :: 0 <= j < i ==> !MatchesEntry(entries[j], p)
      invariant Evaluate(entries, p) == Evaluate(entries[i..], p)
    {
      if MatchesEntry(entries[i], p) {
        assert FirstMatch(entries, p, i);
        return entries[i].action == Permit;
      }
    }
    return false;
  }

  predicate FirstMatch(entries: seq<Entry>, p: Prefix, i: int)
    requires 0 <= i < |entries|
  {
    MatchesEntry(entries[i], p) && forall j :: 0 <= j < i ==> !MatchesEntry(entries[j], p)
  }

  /** The first list of that name decides; an unknown name permits. */
  function Apply(lists: seq<PrefixList>, name: string, p: Prefix): bool {
    if lists == [] then true
    else if lists[0].name == name then Evaluate(lists[0].entries, p)
    else Apply(lists[1..], name, p)
  }

  /** The first list of the name decides alone; a name no list has permits everything. */
  lemma {:induction false} ApplyFirstNamed(lists: seq<PrefixList>, n: nat, name: string, p: Prefix)
    requires n <= |lists| && forall i :: 0 <= i < n ==> lists[i].name != name
    requires n < |lists| ==> lists[n].name == name
    ensures Apply(lists, name, p) == if n < |lists| then Evaluate(lists[n].entries, p) else true
  {
    hide Evaluate;
    if n > 0 {
      ApplyFirstNamed(lists[1..], n - 1, name, p);
    }
  }

  // ----- Dead entries -----

  /** The interval of prefix lengths an entry accepts within its network. */
  function MinLen(e: Entry): nat
    requires e.network.Some?
  {
    var len := e.network.value.prefixLen;
    if e.ge.Some? && e.ge.value > len then e.ge.value else len
  }

  function MaxLen(e: Entry): nat
    requires e.network.Some?
  {
    if e.le.Some? then e.le.value
    else if e.ge.Some? then 255
    else e.network.value.prefixLen
  }

  predicate Parsed(e: Entry) {
    e.network.Some? && e.network.value.prefixLen <= 32
  }

  /** `e`'s network contains `d`'s and `e` accepts every length `d` does. */
  predicate Shadows(e: Entry, d: Entry)
    requires Parsed(e) && Parsed(d)
  {
    Contains(e.network.value, d.network.value) && MinLen(e) <= MinLen(d) && MaxLen(d) <= MaxLen(e)
  }

  /** An entry matches the members of its network within its interval of lengths; one whose text does not
      parse matches nothing. */
  lemma MatchesIsInterval(e: Entry, p: Prefix)
    ensures e.network.None? ==> !MatchesEntry(e, p)
    ensures Parsed(e) ==>
              (MatchesEntry(e, p) <==> Member(p.address, e.network.value) && MinLen(e) <= p.prefixLen <= MaxLen(e))
  {
    if Parsed(e) {
      MaskIsNetwork(p, e.network.value);
    }
  }

  /** An entry that accepts some length is subsumed by another exactly when it is shadowed. */
  lemma SubsumedIffShadowed(e: Entry, d: Entry)
    requires Parsed(e) && Parsed(d) && MinLen(d) <= MaxLen(d)
    ensures (forall p :: MatchesEntry(d, p) ==> MatchesEntry(e, p)) <==> Shadows(e, d)
  {
    var net, inner := e.network.value, d.network.value;
    if Shadows(e, d) {
      forall p | MatchesEntry(d, p) ensures MatchesEntry(e, p) {
        MatchesIsInterval(d, p);
        MatchesIsInterval(e, p);
        MembersAgree(p.address, inner.address, net.prefixLen, inner.prefixLen);
      }
    } else {
      var lo, hi := Prefix(inner.address, MinLen(d)), Prefix(inner.address, MaxLen(d));
      MatchesIsInterval(d, lo);
      MatchesIsInterval(e, lo);
      MatchesIsInterval(d, hi);
      MatchesIsInterval(e, hi);
      if MatchesEntry(e, lo) && MatchesEntry(e, hi) {
        assert net.prefixLen > inner.prefixLen;
        var b := Sibling(inner, inner.address);
        var other := Prefix(b, MinLen(d));
        MatchesIsInterval(d, other);
        MatchesIsInterval(e, other);
        assert MatchesEntry(d, other) && !MatchesEntry(e, other);
      }
    }
  }

  /** An entry that every earlier-matched prefix already settles can be deleted. */
  lemma {:induction false} DeleteSubsumed(entries: seq<Entry>, i: nat, j: nat, p: Prefix)
    requires i < j < |entries|
    requires MatchesEntry(entries[j], p) ==> MatchesEntry(entries[i], p)
    ensures Evaluate(entries[..j] + entries[j + 1..], p) == Evaluate(entries, p)
  {
    hide MatchesEntry;
    var cut := entries[..j] + entries[j + 1..];
    assert cut[0] == entries[0];
    assert cut[1..] == entries[1..][..j - 1] + entries[1..][j..];
    if i > 0 {
      DeleteSubsumed(entries[1..], i - 1, j - 1, p);
    } else if !MatchesEntry(entries[0], p) {
      SkipUnmatched(entries[1..], j - 1, p);
    }
  }

  lemma {:induction false} SkipUnmatched(entries: seq<Entry>, j: nat, p: Prefix)
    requires j < |entries| && !MatchesEntry(entries[j], p)
    ensures Evaluate(entries[..j] + entries[j + 1..], p) == Evaluate(entries, p)
  {
    hide MatchesEntry;
    var cut := entries[..j] + entries[j + 1..];
    if j == 0 {
      assert cut == entries[1..];
    } else {
      assert cut[0] == entries[0];
      assert cut[1..] == entries[1..][..j - 1] + entries[1..][j..];
      SkipUnmatched(entries[1..], j - 1, p);
    }
  }

  /** Deleting a shadowed entry changes the verdict for no prefix. */
  lemma DeadEntry(entries: seq<Entry>, i: nat, j: nat, p: Prefix)
    requires i < j < |entries| && Parsed(entries[i]) && Parsed(entries[j])
    requires Shadows(entries[i], entries[j])
    ensures Evaluate(entries[..j] + entries[j + 1..], p) == Evaluate(entries, p)
  {
    MatchesIsInterval(entries[j], p);
    if MatchesEntry(entries[j], p) {
      SubsumedIffShadowed(entries[i], entries[j]);
    }
    DeleteSubsumed(entries, i, j, p);
  }

  /** The policy with entry `j` of list `n` deleted. */
  function WithoutEntry(lists: seq<PrefixList>, n: nat, j: nat): seq<PrefixList>
    requires n < |lists| && j < |lists[n].entries|
  {
    var entries := lists[n].entries;
    lists[n := lists[n].(entries := entries[..j] + entries[j + 1..])]
  }

  /** Deleting a shadowed entry changes no verdict of the whole policy, under any name. */
  lemma {:induction false} DeadEntryInPolicy(lists: seq<PrefixList>, n: nat, i: nat, j: nat, name: string, p: Prefix)
    requires n < |lists| && i < j < |lists[n].entries|
    requires Parsed(lists[n].entries[i]) && Parsed(lists[n].entries[j])
    requires Shadows(lists[n].entries[i], lists[n].entries[j])
    ensures Apply(WithoutEntry(lists, n, j), name, p) == Apply(lists, name, p)
  {
    hide Evaluate, Shadows;
    if n == 0 {
      DeadEntry(lists[0].entries, i, j, p);
      assert WithoutEntry(lists, 0, j)[1..] == lists[1..];
    } else {
      assert WithoutEntry(lists, n, j)[1..] == WithoutEntry(lists[1..], n - 1, j);
      DeadEntryInPolicy(lists[1..], n - 1, i, j, name, p);
    }
  }
}
