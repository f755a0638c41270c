/** Capabilities over several optional parameters of one OPEN (src/capabilities.rs, `parse_from_open_params`).
    The code checks a capability's length against the whole block and not against its parameter. */
module ParamBlocks {
  import opened Wire
  import opened Capabilities
  import opened Opens

  /** The capabilities of one parameter value read on its own. */
  function Alone(value: seq<byte>): seq<Capability> {
    CapsFrom(value, 0, |value|, [])
  }

  /** Where reading a value on its own stops. */
  function StopsAt(value: seq<byte>, pos: nat): (p: nat)
    requires pos <= |value|
    ensures pos <= p <= |value|
    ensures p + 2 <= |value| ==> p + 2 + value[p + 1] as int > |value|
    decreases |value| - pos
  {
    if pos + 2 <= |value| && pos + 2 + value[pos + 1] as int <= |value| then StopsAt(value, pos + 2 + value[pos + 1] as int)
    else pos
  }

  /** At the end of the value stands a capability that runs into what follows and ends there. */
  predicate RunsInto(value: seq<byte>, rest: seq<byte>) {
    var p := StopsAt(value, 0);
    p + 2 <= |value| && p + 2 + value[p + 1] as int <= |value| + |rest|
  }

  /** The capability so read. */
  function Overrun(value: seq<byte>, rest: seq<byte>): seq<Capability> {
    OverrunFrom(value, rest, 0)
  }

  /** Reading with an accumulator only appends. */
  lemma {:induction false} CapsAppend(data: seq<byte>, pos: nat, end: nat, acc: seq<Capability>)
    ensures CapsFrom(data, pos, end, acc) == acc + CapsFrom(data, pos, end, [])
    decreases |data| - pos
  {
    hide ParseOne;
    if pos + 2 <= end && pos + 2 <= |data| && pos + 2 + data[pos + 1] as int <= |data| {
      var next := pos + 2 + data[pos + 1] as int;
      var c := ParseOne(data[pos], data[pos + 2..next]);
      CapsAppend(data, next, end, acc + [c]);
      CapsAppend(data, next, end, [c]);
      assert [] + [c] == [c];
      Assoc(acc, [c], CapsFrom(data, next, end, []));
    } else {
      assert acc + [] == acc;
    }
  }

  lemma CapsNext(data: seq<byte>, pos: nat, end: nat, acc: seq<Capability>)
    requires pos + 2 <= end && pos + 2 <= |data| && pos + 2 + data[pos + 1] as int <= |data|
    ensures var next := pos + 2 + data[pos + 1] as int;
            CapsFrom(data, pos, end, acc) == CapsFrom(data, next, end, acc + [ParseOne(data[pos], data[pos + 2..next])])
  {
    hide ParseOne;
  }

  lemma CapsDone(data: seq<byte>, pos: nat, end: nat, acc: seq<Capability>)
    requires pos + 2 > end || pos + 2 > |data| || pos + 2 + data[pos + 1] as int > |data|
    ensures CapsFrom(data, pos, end, acc) == acc
  {
  }

  /** A capability header inside a block, and its value if it ends there. */
  lemma HeaderInBlock(data: seq<byte>, start: nat, value: seq<byte>, rest: seq<byte>, pos: nat)
    requires start <= |data| && data[start..] == value + rest && pos + 2 <= |value|
    ensures start + pos + 2 <= |data| == start + |value| + |rest|
    ensures data[start + pos] == value[pos] && data[start + pos + 1] == value[pos + 1]
    ensures var next := pos + 2 + value[pos + 1] as int;
            && (next <= |value| + |rest| ==> data[start + pos + 2..start + next] == (value + rest)[pos + 2..next])
            && (next <= |value| ==> (value + rest)[pos + 2..next] == value[pos + 2..next])
  {
    var all, next := value + rest, pos + 2 + value[pos + 1] as int;
    assert |data| == start + |all|;
    assert data[start + pos] == data[start..][pos] && data[start + pos + 1] == data[start..][pos + 1];
    if next <= |all| {
      SliceOfSuffix(data, start, pos + 2, next);
    }
  }

  /** What follows the part of a value that is read on its own. */
  function OverrunFrom(value: seq<byte>, rest: seq<byte>, pos: nat): seq<Capability>
    requires pos <= |value|
  {
    var p := StopsAt(value, pos);
    if p + 2 <= |value| && p + 2 + value[p + 1] as int <= |value| + |rest|
    then [ParseOne(value[p], (value + rest)[p + 2..p + 2 + value[p + 1] as int])] else []
  }

  lemma OverrunNext(value: seq<byte>, rest: seq<byte>, pos: nat)
    requires pos <= |value|
    ensures pos + 2 > |value| ==> OverrunFrom(value, rest, pos) == []
    ensures pos + 2 <= |value| ==>
              var next := pos + 2 + value[pos + 1] as int;
              OverrunFrom(value, rest, pos)
              == if next <= |value| then OverrunFrom(value, rest, next)
                 else if next <= |value| + |rest| then [ParseOne(value[pos], (value + rest)[pos + 2..next])]
                 else []
  {
    hide ParseOne;
  }

  /** Inside a block, a value is read as on its own, up to the position where that stops. */
  lemma {:induction false} CapsInBlock(data: seq<byte>, start: nat, value: seq<byte>, rest: seq<byte>, pos: nat, acc: seq<Capability>)
    requires start <= |data| && data[start..] == value + rest && pos <= |value|
    ensures CapsFrom(data, start + pos, start + |value|, acc) == CapsFrom(value, pos, |value|, acc) + OverrunFrom(value, rest, pos)
    decreases |value| - pos
  {
    hide ParseOne, CapsFrom, OverrunFrom;
    OverrunNext(value, rest, pos);
    if pos + 2 > |value| {
      CapsDone(data, start + pos, start + |value|, acc);
      CapsDone(value, pos, |value|, acc);
      assert acc + [] == acc;
    } else {
      var next := pos + 2 + value[pos + 1] as int;
      HeaderInBlock(data, start, value, rest, pos);
      if next > |value| + |rest| {
        CapsDone(data, start + pos, start + |value|, acc);
        CapsDone(value, pos, |value|, acc);
        assert acc + [] == acc;
      } else {
        var c := ParseOne(value[pos], (value + rest)[pos + 2..next]);
        CapsNext(data, start + pos, start + |value|, acc);
        if next <= |value| {
          CapsNext(value, pos, |value|, acc);
          CapsInBlock(data, start, value, rest, next, acc + [c]);
        } else {
          CapsDone(data, start + next, start + |value|, acc + [c]);
          CapsDone(value, pos, |value|, acc);
        }
      }
    }
  }

  /** The capabilities of a parameter list: those of the parameters of type 2, each with what runs into the
      parameters after it. */
  function Collected(params: seq<OptionalParam>): seq<Capability> {
    if params == [] then [] else Found(params[0], PutParams(params[1..])) + Collected(params[1..])
  }

  /** What one parameter yields when the octets `rest` follow it. */
  function Found(p: OptionalParam, rest: seq<byte>): seq<Capability> {
    if p.paramType == 2 then Alone(p.value) + Overrun(p.value, rest) else []
  }

  /** The same without the overruns: every parameter read on its own. */
  function Separate(params: seq<OptionalParam>): seq<Capability> {
    if params == [] then []
    else (if params[0].paramType == 2 then Alone(params[0].value) else []) + Separate(params[1..])
  }

  ghost predicate Fit(params: seq<OptionalParam>) {
    forall i :: 0 <= i < |params| ==> |params[i].value| < 0x100
  }

  /** Some parameter of type 2 ends in a capability that runs into the parameters after it. */
  ghost predicate SomeOverrun(params: seq<OptionalParam>) {
    exists i :: 0 <= i < |params| && params[i].paramType == 2 && RunsInto(params[i].value, PutParams(params[i + 1..]))
  }

  /** One parameter at the head of what is left of the block. */
  lemma ParamAt(data: seq<byte>, pos: nat, p: OptionalParam, rest: seq<byte>, acc: seq<Capability>)
    requires pos <= |data| && |p.value| < 0x100 && data[pos..] == [p.paramType, |p.value|] + p.value + rest
    ensures var next := pos + 2 + |p.value|;
            && next <= |data| && data[next..] == rest
            && ParamsFrom(data, pos, acc) == ParamsFrom(data, next, acc + Found(p, rest))
  {
    hide CapsFrom, Overrun, ParamsFrom;
    ParamHeader(data, pos, p, rest);
    ParamsNext(data, pos, acc);
    if p.paramType == 2 {
      ValueAt(data, pos + 2, p.value, rest, acc);
    } else {
      assert acc + [] == acc;
    }
  }

  lemma ParamHeader(data: seq<byte>, pos: nat, p: OptionalParam, rest: seq<byte>)
    requires pos <= |data| && |p.value| < 0x100 && data[pos..] == [p.paramType, |p.value|] + p.value + rest
    ensures var next := pos + 2 + |p.value|;
            && next <= |data| && data[pos] == p.paramType && data[pos + 1] == |p.value|
            && data[pos + 2..] == p.value + rest && data[next..] == rest
  {
    var n, tail := |p.value|, data[pos..];
    assert tail == [p.paramType, n] + (p.value + rest) by { Assoc([p.paramType, n], p.value, rest); }
    assert data[pos] == tail[0] && data[pos + 1] == tail[1];
    SliceOfSuffix(data, pos, 0, 2);
    SliceOfSuffix(data, pos, 0, 2 + n);
    assert tail[2..] == p.value + rest;
    assert tail[2 + n..] == tail[2..][n..] == rest;
  }

  lemma ParamsNext(data: seq<byte>, pos: nat, acc: seq<Capability>)
    requires pos + 2 <= |data|
    ensures var end := pos + 2 + data[pos + 1] as int;
            ParamsFrom(data, pos, acc) == ParamsFrom(data, end, if data[pos] == 2 then CapsFrom(data, pos + 2, end, acc) else acc)
  {
    hide CapsFrom;
  }

  lemma ValueAt(data: seq<byte>, start: nat, value: seq<byte>, rest: seq<byte>, acc: seq<Capability>)
    requires start <= |data| && data[start..] == value + rest
    ensures CapsFrom(data, start, start + |value|, acc) == acc + (Alone(value) + Overrun(value, rest))
  {
    hide CapsFrom, ParseOne;
    CapsInBlock(data, start, value, rest, 0, acc);
    CapsAppend(value, 0, |value|, acc);
    Assoc(acc, Alone(value), Overrun(value, rest));
  }

  lemma PutParamsHead(params: seq<OptionalParam>)
    requires params != [] && |params[0].value| < 0x100
    ensures PutParams(params) == [params[0].paramType, |params[0].value|] + params[0].value + PutParams(params[1..])
  {
  }

  lemma NoParamsLeft(data: seq<byte>, pos: nat, params: seq<OptionalParam>, acc: seq<Capability>)
    requires params == [] && pos <= |data| && data[pos..] == PutParams(params)
    ensures ParamsFrom(data, pos, acc) == acc + Collected(params)
  {
    assert acc + [] == acc;
  }

  lemma {:induction false} ParamsCollected(data: seq<byte>, pos: nat, params: seq<OptionalParam>, acc: seq<Capability>)
    requires pos <= |data| && data[pos..] == PutParams(params) && Fit(params)
    ensures ParamsFrom(data, pos, acc) == acc + Collected(params)
    decreases |params|
  {
    hide Found, ParamsFrom, PutParams;
    if params == [] {
      NoParamsLeft(data, pos, params, acc);
    } else {
      var p, rest := params[0], params[1..];
      PutParamsHead(params);
      ParamAt(data, pos, p, PutParams(rest), acc);
      ParamsCollected(data, pos + 2 + |p.value|, rest, acc + Found(p, PutParams(rest)));
      Assoc(acc, Found(p, PutParams(rest)), Collected(rest));
    }
  }

  /** The capabilities of an OPEN, for every parameter list. */
  lemma CapabilitiesCollected(o: OpenMessage)
    requires Fit(o.optionalParams)
    ensures CapabilitiesOf(o) == Collected(o.optionalParams)
  {
    hide ParamsFrom, Collected;
    var data := PutParams(o.optionalParams);
    assert data[0..] == data && [] + Collected(o.optionalParams) == Collected(o.optionalParams);
    ParamsCollected(data, 0, o.optionalParams, []);
  }

  lemma SomeOverrunNext(params: seq<OptionalParam>)
    requires params != []
    ensures SomeOverrun(params) <==>
              (params[0].paramType == 2 && RunsInto(params[0].value, PutParams(params[1..]))) || SomeOverrun(params[1..])
  {
    hide RunsInto, PutParams;
    var rest := params[1..];
    if i :| 0 <= i < |rest| && rest[i].paramType == 2 && RunsInto(rest[i].value, PutParams(rest[i + 1..])) {
      assert params[i + 1] == rest[i] && params[i + 2..] == rest[i + 1..];
    }
    if i :| 0 <= i < |params| && params[i].paramType == 2 && RunsInto(params[i].value, PutParams(params[i + 1..])) {
      if i > 0 {
        assert rest[i - 1] == params[i] && rest[i..] == params[i + 1..];
      }
    }
  }

  lemma OverrunSize(value: seq<byte>, rest: seq<byte>)
    ensures |Overrun(value, rest)| == if RunsInto(value, rest) then 1 else 0
  {
  }

  /** Every overrun adds a capability. */
  lemma {:induction false} OverrunsAdd(params: seq<OptionalParam>)
    ensures |Collected(params)| >= |Separate(params)|
    ensures |Collected(params)| == |Separate(params)| <==> !SomeOverrun(params)
    ensures !SomeOverrun(params) ==> Collected(params) == Separate(params)
    decreases |params|
  {
    hide Alone, RunsInto, PutParams, Overrun;
    if params != [] {
      OverrunsAdd(params[1..]);
      SomeOverrunNext(params);
      if params[0].paramType == 2 {
        OverrunSize(params[0].value, PutParams(params[1..]));
        assert Alone(params[0].value) + [] == Alone(params[0].value);
      }
    }
  }

  /** The parameters are read each on its own, in order, and only those of type 2 count, exactly if no
      capability runs from its parameter into the next. */
  lemma SeparateIff(o: OpenMessage)
    requires Fit(o.optionalParams)
    ensures CapabilitiesOf(o) == Separate(o.optionalParams) <==> !SomeOverrun(o.optionalParams)
  {
    hide Collected, Separate, SomeOverrun, CapabilitiesOf;
    CapabilitiesCollected(o);
    OverrunsAdd(o.optionalParams);
  }

  // ----- Lists of well-formed capabilities -----

  predicate AllWellFormed(caps: seq<Capability>) {
    forall i :: 0 <= i < |caps| ==> WellFormed(caps[i])
  }

  /** `lists[i]` is what the i-th parameter carries: nothing unless it is of type 2. */
  ghost predicate Carries(params: seq<OptionalParam>, lists: seq<seq<Capability>>) {
    && |params| == |lists|
    && forall i :: 0 <= i < |params| ==>
         if params[i].paramType == 2 then params[i].value == CapBytes(lists[i]) && AllWellFormed(lists[i])
         else lists[i] == []
  }

  function Flatten(lists: seq<seq<Capability>>): seq<Capability> {
    if lists == [] then [] else lists[0] + Flatten(lists[1..])
  }

  /** A value that is a list of capabilities is read to its end. */
  lemma {:induction false} NoneRunsInto(value: seq<byte>, pos: nat, caps: seq<Capability>)
    requires pos <= |value| < 0x100 && value[pos..] == CapBytes(caps)
    ensures StopsAt(value, pos) == |value|
    decreases |caps|
  {
    hide CapBytes, ToBytes, Value, Code;
    if caps == [] {
      NoBytes(caps);
    } else {
      CapBytesHead(caps);
      ValueFits(caps);
      CapabilityAt(value, pos, caps[0], CapBytes(caps[1..]));
      NoneRunsInto(value, pos + 2 + |Value(caps[0])|, caps[1..]);
    }
  }

  lemma NoBytes(caps: seq<Capability>)
    requires caps == []
    ensures CapBytes(caps) == []
  {
  }

  lemma ValueFits(caps: seq<Capability>)
    requires caps != [] && |CapBytes(caps)| < 0x100
    ensures |Value(caps[0])| < 0x100
  {
  }

  lemma ListAlone(caps: seq<Capability>)
    requires |CapBytes(caps)| < 0x100 && AllWellFormed(caps)
    ensures Alone(CapBytes(caps)) == caps && StopsAt(CapBytes(caps), 0) == |CapBytes(caps)|
  {
    hide CapBytes, WellFormed, CapsFrom, ReparsedAll, StopsAt;
    var value := CapBytes(caps);
    assert value[0..] == value && [] + ReparsedAll(caps) == ReparsedAll(caps);
    CapsParsed(value, 0, caps, []);
    ReparsedAllIff(caps);
    NoneRunsInto(value, 0, caps);
  }

  lemma {:induction false} CarriedCollected(params: seq<OptionalParam>, lists: seq<seq<Capability>>)
    requires Fit(params) && Carries(params, lists)
    ensures Collected(params) == Flatten(lists)
    decreases |params|
  {
    hide Alone, CapBytes, AllWellFormed, StopsAt;
    if params != [] {
      CarriedCollected(params[1..], lists[1..]);
      if params[0].paramType == 2 {
        ListAlone(lists[0]);
        assert Overrun(params[0].value, PutParams(params[1..])) == [];
        assert lists[0] + [] == lists[0];
      }
    }
  }

  /** Through the wire: an OPEN whose parameters fit their length octet, where each parameter of type 2
      holds a list of well-formed capabilities, yields these lists one after the other. */
  lemma ManyParameters(o: OpenMessage, lists: seq<seq<Capability>>)
    requires |PutParams(o.optionalParams)| < 0x100 && Carries(o.optionalParams, lists)
    ensures ParseOpen(OpenBody(o)) == Ok(o) && CapabilitiesOf(o) == Flatten(lists)
  {
    hide PutParams, ParseOpen, OpenBody, Carries, CapabilitiesOf, Collected;
    OpenRoundTrip(o);
    PutParamsSize(o.optionalParams);
    EachFits(o.optionalParams);
    CapabilitiesCollected(o);
    CarriedCollected(o.optionalParams, lists);
  }

  lemma {:induction false} EachFits(params: seq<OptionalParam>)
    requires ParamsSize(params) < 0x100
    ensures Fit(params)
    decreases |params|
  {
    if params != [] {
      EachFits(params[1..]);
      assert forall i :: 0 < i < |params| ==> params[i] == params[1..][i - 1];
    }
  }

  /** A parameter that ends after the header of a four-octet AS capability: the value is taken from the two
      parameters that follow, although the parameter on its own carries nothing. */
  lemma OverrunExample(o: OpenMessage)
    requires o.optionalParams == [OptionalParam(2, [65, 4]), OptionalParam(0, []), OptionalParam(0, [9, 9])]
    ensures CapabilitiesOf(o) == [FourOctetAsn(2)] && Separate(o.optionalParams) == []
  {
    hide ParamsFrom, PutParams, Separate;
    OverrunBlock(o.optionalParams);
    OverrunRead();
    OverrunSeparate(o.optionalParams);
  }

  lemma OverrunBlock(params: seq<OptionalParam>)
    requires params == [OptionalParam(2, [65, 4]), OptionalParam(0, []), OptionalParam(0, [9, 9])]
    ensures PutParams(params) == [2, 2, 65, 4, 0, 0, 0, 2, 9, 9]
  {
    assert params[1..] == [params[1], params[2]] && params[1..][1..] == [params[2]] && params[1..][1..][1..] == [];
    assert PutParams([params[2]]) == [0, 2, 9, 9];
    assert PutParams(params[1..]) == [0, 0, 0, 2, 9, 9];
  }

  lemma OverrunRead()
    ensures ParamsFrom([2, 2, 65, 4, 0, 0, 0, 2, 9, 9], 0, []) == [FourOctetAsn(2)]
  {
    hide ParamsFrom, CapsFrom;
    var data: seq<byte> := [2, 2, 65, 4, 0, 0, 0, 2, 9, 9];
    var v: seq<byte> := [0, 0, 0, 2];
    assert data == [2, 2, 65, 4] + v + [9, 9];
    assert data[4..8] == v && v[2..] == [0, 2];
    var c := [FourOctetAsn(2)];
    assert ParseOne(65, v) == FourOctetAsn(2) && [] + c == c;
    CapsNext(data, 2, 4, []);
    CapsDone(data, 8, 4, c);
    ParamsNext(data, 0, []);
    ParamsNext(data, 4, c);
    ParamsNext(data, 6, c);
    ParamsDone(data, 10, c);
  }

  lemma ParamsDone(data: seq<byte>, pos: nat, acc: seq<Capability>)
    requires pos + 2 > |data|
    ensures ParamsFrom(data, pos, acc) == acc
  {
  }

  lemma OverrunSeparate(params: seq<OptionalParam>)
    requires params == [OptionalParam(2, [65, 4]), OptionalParam(0, []), OptionalParam(0, [9, 9])]
    ensures Separate(params) == []
  {
    assert params[1..] == [params[1], params[2]] && params[1..][1..] == [params[2]] && params[1..][1..][1..] == [];
    assert Alone([65, 4]) == [];
    assert Separate([params[2]]) == [] + Separate([]) == [];
    assert Separate(params[1..]) == [] + Separate([params[2]]) == [];
    assert Separate(params) == [] + Separate(params[1..]);
  }
}
