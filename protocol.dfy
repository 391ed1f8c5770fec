/** What the four remote-command handlers compute, as functions of the
    request payload and the bank: request decoding, the Set acceptance rule,
    the new bank after a Set, the replies, and the fragmentation of a dump. */
module Protocol {
  import opened Wire
  import opened Registry

  /** sizeof(lspc::MessageTypesFromPC::SetParameter_t): type, param, valueType, arraySize. */
  const SET_HEADER_SIZE: nat := 4
  /** sizeof(lspc::MessageTypesFromPC::GetParameter_t): type, param. */
  const GET_REQUEST_SIZE: nat := 2
  /** Largest payload the serial link carries in one package. */
  const LSPC_MAXIMUM_PACKAGE_LENGTH: nat := 250

  /** Message types sent to the host. */
  datatype MessageKind = SetParameterAck | GetParameter | StoreParametersAck | DumpParameters

  datatype Packet = Packet(kind: MessageKind, payload: seq<byte>)

  /* ---------------------------------------------------------------- Set */

  datatype SetRequest = SetRequest(group: byte, id: byte, valueType: byte, arraySize: byte, value: seq<byte>)

  function EncodeSet(req: SetRequest): seq<byte>
  {
    [req.group, req.id, req.valueType, req.arraySize] + req.value
  }

  /** A Set payload must carry at least one value byte beyond its header. */
  function DecodeSet(payload: seq<byte>): (r: Option<SetRequest>)
    ensures r.Some? <==> |payload| > SET_HEADER_SIZE
    ensures r.Some? ==> EncodeSet(r.value) == payload && |r.value.value| > 0
  {
    if |payload| <= SET_HEADER_SIZE then None
    else Some(SetRequest(payload[0], payload[1], payload[2], payload[3], payload[SET_HEADER_SIZE..]))
  }

  lemma DecodeEncodeSet(req: SetRequest)
    requires |req.value| > 0
    ensures DecodeSet(EncodeSet(req)) == Some(req)
  {
    assert EncodeSet(req)[SET_HEADER_SIZE..] == req.value;
  }

  /** paramValueLengthBytes, a uint16_t: the value length modulo 2^16. */
  function ValueLength(req: SetRequest): (r: uint16)
    ensures r <= |req.value|
    ensures |req.value| < 0x1_0000 ==> r == |req.value|
  {
    |req.value| % 0x1_0000
  }

  /** The four checks a Set must pass before the field is written. */
  predicate Accepts(req: SetRequest)
  {
    var p := LookupParameter(req.group, req.id);
    p.Known()
    && p.arraySize == req.arraySize
    && Code(p.valueType) == req.valueType
    && p.Length() == ValueLength(req)
  }

  /** The bytes of a registered field. */
  function FieldValue(bank: seq<byte>, group: byte, id: byte): (r: seq<byte>)
    requires |bank| == PARAMETERS_LENGTH && LookupParameter(group, id).Known()
    ensures |r| == LookupParameter(group, id).Length()
  {
    var p := LookupParameter(group, id);
    bank[Lo(p)..Hi(p)]
  }

  /** Does byte i of the bank belong to the field named by (group, id)? */
  predicate InField(i: int, group: byte, id: byte)
  {
    var p := LookupParameter(group, id);
    p.Known() && Lo(p) <= i < Hi(p)
  }

  /** memcpy of data into the bank at offset. */
  function WriteBytes(bank: seq<byte>, offset: nat, data: seq<byte>): (r: seq<byte>)
    requires offset + |data| <= |bank|
    ensures |r| == |bank|
    ensures r[offset..offset + |data|] == data
    ensures forall i :: 0 <= i < |bank| && !(offset <= i < offset + |data|) ==> r[i] == bank[i]
  {
    bank[..offset] + data + bank[offset + |data|..]
  }

  /** The bank after a Set request has been handled. */
  function ApplySet(bank: seq<byte>, req: SetRequest): (r: seq<byte>)
    requires |bank| == PARAMETERS_LENGTH
    ensures |r| == PARAMETERS_LENGTH
    ensures !Accepts(req) ==> r == bank
    ensures Accepts(req) ==> FieldValue(r, req.group, req.id) == req.value[..ValueLength(req)]
    ensures forall i :: 0 <= i < PARAMETERS_LENGTH && !InField(i, req.group, req.id) ==> r[i] == bank[i]
  {
    if Accepts(req) then
      var p := LookupParameter(req.group, req.id);
      WriteBytes(bank, Lo(p), req.value[..p.Length()])
    else
      bank
  }

  /** SetParameterAck_t: type, param, acknowledged. */
  function SetAck(req: SetRequest, acknowledged: bool): seq<byte>
  {
    [req.group, req.id, BoolByte(acknowledged)]
  }

  /** A remote Set never reaches ForceDefaultParameters or ParametersSize. */
  lemma SetPreservesHeader(bank: seq<byte>, req: SetRequest)
    requires |bank| == PARAMETERS_LENGTH
    ensures ApplySet(bank, req)[..HEADER_LENGTH] == bank[..HEADER_LENGTH]
  {
    var r := ApplySet(bank, req);
    forall i | 0 <= i < HEADER_LENGTH
      ensures r[i] == bank[i]
    {
      assert !InField(i, req.group, req.id);
    }
  }

  /** Setting one parameter leaves every other registered parameter as it was. */
  lemma SetLeavesOtherFields(bank: seq<byte>, req: SetRequest, group: byte, id: byte)
    requires |bank| == PARAMETERS_LENGTH
    requires LookupParameter(group, id).Known()
    requires (group, id) != (req.group, req.id)
    ensures FieldValue(ApplySet(bank, req), group, id) == FieldValue(bank, group, id)
  {
    var r := ApplySet(bank, req);
    var p := LookupParameter(group, id);
    if LookupParameter(req.group, req.id).Known() {
      FieldsDisjoint(group, id, req.group, req.id);
    }
    forall i | Lo(p) <= i < Hi(p)
      ensures r[i] == bank[i]
    {
      assert !InField(i, req.group, req.id);
    }
  }

  /* ---------------------------------------------------------------- Get */

  /** The Get reply for a request payload, None when no reply is sent. */
  function GetReply(bank: seq<byte>, payload: seq<byte>): (r: Option<seq<byte>>)
    requires |bank| == PARAMETERS_LENGTH
    ensures r.Some? <==> |payload| == GET_REQUEST_SIZE && LookupParameter(payload[0], payload[1]).Known()
    ensures r.Some? ==> |r.value| == 4 + LookupParameter(payload[0], payload[1]).Length()
  {
    if |payload| != GET_REQUEST_SIZE then None
    else
      var p := LookupParameter(payload[0], payload[1]);
      if !p.Known() then None
      else Some([payload[0], payload[1], Code(p.valueType), p.arraySize] + FieldValue(bank, payload[0], payload[1]))
  }

  /** After an accepted Set, a Get of the same parameter returns the Set
      request back: its header and the value bytes that were written. */
  lemma SetThenGet(bank: seq<byte>, req: SetRequest)
    requires |bank| == PARAMETERS_LENGTH && Accepts(req)
    ensures GetReply(ApplySet(bank, req), [req.group, req.id])
         == Some([req.group, req.id, req.valueType, req.arraySize] + req.value[..ValueLength(req)])
  {
  }

  /** A well-formed Set of a registered parameter, whose value is exactly
      as long as the field, is answered by its own payload on a later Get. */
  lemma SetThenGetEchoes(bank: seq<byte>, req: SetRequest)
    requires |bank| == PARAMETERS_LENGTH
    requires LookupParameter(req.group, req.id).Known()
    requires var p := LookupParameter(req.group, req.id);
             req.arraySize == p.arraySize && req.valueType == Code(p.valueType) && |req.value| == p.Length()
    ensures Accepts(req)
    ensures GetReply(ApplySet(bank, req), [req.group, req.id]) == Some(EncodeSet(req))
  {
    assert req.value[..ValueLength(req)] == req.value;
    SetThenGet(bank, req);
  }

  /* --------------------------------------------------------------- Store */

  /** StoreParametersAck_t: acknowledged. */
  function StoreAck(acknowledged: bool): seq<byte>
  {
    [BoolByte(acknowledged)]
  }

  /* ---------------------------------------------------------------- Dump */

  /** packages_to_follow as the handler computes it. */
  function PackagesToFollow(n: nat, max: nat): nat
    requires max > 0
  {
    n / max + (if n % max > 0 then 1 else 0)
  }

  /** The handler's count is the ceiling of n / max: the fewest packages of
      at most max bytes that hold n bytes. */
  lemma PackagesToFollowIsCeiling(n: nat, max: nat)
    requires max > 0
    ensures var k := PackagesToFollow(n, max);
            k * max >= n && (k == 0 || (k - 1) * max < n)
  {
    var q, r := n / max, n % max;
    assert n == q * max + r;
    if r > 0 {
      assert (q + 1) * max == q * max + max;
    }
  }

  lemma PackagesToFollowStep(n: nat, max: nat)
    requires max > 0 && n > max
    ensures PackagesToFollow(n, max) == 1 + PackagesToFollow(n - max, max)
  {
    var q, r := n / max, n % max;
    assert n == q * max + r && 0 <= r < max;
    assert n - max == (q - 1) * max + r;
    DivModUnique(n - max, max, q - 1, r);
  }

  lemma DivModUnique(n: int, max: int, q: int, r: int)
    requires max > 0 && 0 <= r < max && n == q * max + r
    ensures n / max == q && n % max == r
  {
    var q', r' := n / max, n % max;
    assert n == q' * max + r' && 0 <= r' < max;
    assert (q - q') * max == r' - r;
    if q > q' {
      MulAtLeast(q - q', max);
    } else if q < q' {
      MulAtLeast(q' - q, max);
    }
  }

  lemma {:induction false} MulAtLeast(d: int, m: nat)
    requires d >= 1
    ensures d * m >= m
    decreases d
  {
    if d > 1 {
      MulAtLeast(d - 1, m);
      assert d * m == (d - 1) * m + m;
    }
  }

  function Concat(fs: seq<seq<byte>>): seq<byte>
  {
    if fs == [] then [] else fs[0] + Concat(fs[1..])
  }

  /** The pieces the dump loop transmits: the bank cut from the front into
      packages of max bytes, the last one possibly shorter. */
  function Fragments(s: seq<byte>, max: nat): (r: seq<seq<byte>>)
    requires max > 0
    ensures Concat(r) == s
    ensures forall i :: 0 <= i < |r| ==> 0 < |r[i]| <= max
    decreases |s|
  {
    if |s| == 0 then []
    else if |s| <= max then
      assert s[..|s|] == s;
      [s]
    else
      var rest := Fragments(s[max..], max);
      assert s == s[..max] + s[max..];
      [s[..max]] + rest
  }

  /** The dump sends as many fragments as its header announces. */
  lemma {:induction false} FragmentsCount(s: seq<byte>, max: nat)
    requires max > 0
    ensures |Fragments(s, max)| == PackagesToFollow(|s|, max)
    decreases |s|
  {
    if |s| > max {
      PackagesToFollowStep(|s|, max);
      FragmentsCount(s[max..], max);
    } else if |s| > 0 {
      assert |s| / max == 0 || |s| == max;
      if |s| == max {
        DivModUnique(|s|, max, 1, 0);
      } else {
        DivModUnique(|s|, max, 0, |s|);
      }
    }
  }

  /** Fragments of s that start at byte k: peel one package. */
  lemma FragmentsPeel(s: seq<byte>, max: nat)
    requires max > 0 && |s| > 0
    ensures var k := if |s| < max then |s| else max;
            Fragments(s, max) == [s[..k]] + Fragments(s[k..], max)
  {
    if |s| <= max {
      assert s[|s|..] == [];
      assert s[..|s|] == s;
    }
  }

  /** DumpParameters_t: parameters_size_bytes, packages_to_follow (uint16 each). */
  function DumpHeader(): seq<byte>
  {
    EncodeLE16(PARAMETERS_LENGTH) + EncodeLE16(PackagesToFollow(PARAMETERS_LENGTH, LSPC_MAXIMUM_PACKAGE_LENGTH))
  }

  function AsDumpPackets(fs: seq<seq<byte>>): (r: seq<Packet>)
    ensures |r| == |fs|
    ensures forall i :: 0 <= i < |fs| ==> r[i] == Packet(DumpParameters, fs[i])
  {
    if fs == [] then [] else [Packet(DumpParameters, fs[0])] + AsDumpPackets(fs[1..])
  }

  /** Everything the Dump handler sends for a bank: the header, then the fragments. */
  function DumpPackets(bank: seq<byte>): seq<Packet>
  {
    [Packet(DumpParameters, DumpHeader())] + AsDumpPackets(Fragments(bank, LSPC_MAXIMUM_PACKAGE_LENGTH))
  }

  /** A dump announces the bank size and the number of packages to follow,
      then sends exactly that many packages, each at most the link's maximum,
      whose payloads put together are the whole bank. */
  lemma DumpComplete(bank: seq<byte>)
    requires |bank| == PARAMETERS_LENGTH
    ensures var ps := DumpPackets(bank);
            var h := ps[0].payload;
            |h| == 4
            && DecodeLE16(h[..2]) == |bank|
            && |ps| == 1 + DecodeLE16(h[2..])
            && (forall i :: 1 <= i < |ps| ==> ps[i].kind == DumpParameters && 0 < |ps[i].payload| <= LSPC_MAXIMUM_PACKAGE_LENGTH)
            && Concat(seq(|ps| - 1, i requires 0 <= i < |ps| - 1 => ps[i + 1].payload)) == bank
  {
    var ps := DumpPackets(bank);
    var fs := Fragments(bank, LSPC_MAXIMUM_PACKAGE_LENGTH);
    var h := ps[0].payload;
    var n := PackagesToFollow(PARAMETERS_LENGTH, LSPC_MAXIMUM_PACKAGE_LENGTH);
    assert h[..2] == EncodeLE16(PARAMETERS_LENGTH);
    assert h[2..] == EncodeLE16(n);
    LE16RoundTrip(PARAMETERS_LENGTH);
    LE16RoundTrip(n);
    FragmentsCount(bank, LSPC_MAXIMUM_PACKAGE_LENGTH);
    assert seq(|ps| - 1, i requires 0 <= i < |ps| - 1 => ps[i + 1].payload) == fs;
  }
}
