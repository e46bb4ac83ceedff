/** The IA_NA option of DHCPv6 and its nested IA Address options, sections 21.4 and 21.6 of RFC 9915. */
module IANAOptions {
  import opened Common
  import opened Netip
  import opened BigEndian

  const NANOS: nat := 1_000_000_000

  /** A time.Duration: 64-bit nanoseconds. */
  type Duration = d: int | -0x8000_0000_0000_0000 <= d < 0x8000_0000_0000_0000

  /** Whole seconds in 32 bits, all that the wire can carry. */
  predicate Fits(d: Duration) {
    0 <= d < 0x1_0000_0000 * NANOS && d % NANOS == 0
  }

  /** Seconds off the wire as a duration; no 32-bit number of seconds overflows it. */
  function FromSeconds(sec: u32): (d: Duration)
    ensures d / NANOS == sec && Fits(d)
  {
    sec * NANOS
  }

  /**
   * What a platform gives for a duration that is converted to 32 bits of seconds by way of a floating
   * point number, where the result is rounded or not defined.
   */
  type Conversion = Duration -> u32

  function ToSeconds(d: Duration, conv: Conversion): u32 {
    if Fits(d) then d / NANOS else conv(d)
  }

  datatype IAAddr = IAAddr(addr: Addr, preferred: Duration, valid: Duration)

  datatype IANA = IANA(id: u32, t1: Duration, t2: Duration, nested: seq<IAAddr>)

  const IANA_MIN_LEN := 12
  const IAADDR_DATA_LEN := 24
  const OPT_IAADDR: u16 := 5
  const OPT_STATUS_CODE: u16 := 13

  /** A nested option: code, length and body. */
  datatype Tlv = Tlv(code: u16, body: bytes)

  predicate Printable(t: Tlv) {
    |t.body| < 0x1_0000
  }

  function Print(t: Tlv): bytes {
    BE(t.code, 2) + BE(|t.body|, 2) + t.body
  }

  function PrintAll(ts: seq<Tlv>): bytes {
    if ts == [] then [] else Print(ts[0]) + PrintAll(ts[1..])
  }

  /** An option header is there, but announces more than follows. */
  predicate Overruns(rest: bytes) {
    |rest| >= 4 && FromBE(rest[2..4]) > |rest| - 4
  }

  datatype DecodeError = ShortHeader | Overrun(index: nat) | ShortAddr(index: nat)

  function DecodeAddr(data: bytes): IAAddr
    requires |data| >= IAADDR_DATA_LEN
  {
    FromBEBound(data[0..16]);
    FromBEBound(data[16..20]);
    FromBEBound(data[20..24]);
    Widths();
    IAAddr(V6(FromBE(data[0..16]), ""), FromSeconds(FromBE(data[16..20])), FromSeconds(FromBE(data[20..24])))
  }

  function Join(before: seq<IAAddr>, after: Result<seq<IAAddr>, DecodeError>): Result<seq<IAAddr>, DecodeError> {
    match after
    case Ok(addrs) => Ok(before + addrs)
    case Err(e) => Err(e)
  }

  lemma JoinJoins(a: seq<IAAddr>, b: seq<IAAddr>, r: Result<seq<IAAddr>, DecodeError>)
    ensures Join([], r) == r
    ensures Join(a, Join(b, r)) == Join(a + b, r)
    ensures Join(a, Ok([])) == Ok(a)
  {
    assert a + [] == a;
    if r.Ok? {
      assert a + (b + r.value) == (a + b) + r.value;
      assert [] + r.value == r.value;
    }
  }

  /** The nested addresses of data, whose first option has the given index; up to three last bytes are ignored. */
  function DecodeNested(data: bytes, index: nat): Result<seq<IAAddr>, DecodeError>
    decreases |data|
  {
    if |data| < 4 then Ok([])
    else
      var code, l := FromBE(data[0..2]), FromBE(data[2..4]);
      if l > |data| - 4 then Err(Overrun(index))
      else if code == OPT_IAADDR && l < IAADDR_DATA_LEN then Err(ShortAddr(index))
      else
        Join(if code == OPT_IAADDR then [DecodeAddr(data[4..4 + l])] else [], DecodeNested(data[4 + l..], index + 1))
  }

  /** The option with the fixed fields of the header. */
  function WithHeader(header: bytes, nested: seq<IAAddr>): IANA
    requires |header| >= IANA_MIN_LEN
  {
    FromBEBound(header[0..4]);
    FromBEBound(header[4..8]);
    FromBEBound(header[8..12]);
    Widths();
    IANA(FromBE(header[0..4]), FromSeconds(FromBE(header[4..8])), FromSeconds(FromBE(header[8..12])), nested)
  }

  function Decode(data: bytes): Result<IANA, DecodeError> {
    if |data| < IANA_MIN_LEN then Err(ShortHeader)
    else
      match DecodeNested(data[IANA_MIN_LEN..], 0)
      case Err(e) => Err(e)
      case Ok(nested) => Ok(WithHeader(data, nested))
  }

  lemma DecodeAfterHeader(header: bytes, rest: bytes)
    requires |header| == IANA_MIN_LEN
    ensures Decode(header + rest) ==
      match DecodeNested(rest, 0)
      case Err(e) => Err(e)
      case Ok(nested) => Ok(WithHeader(header, nested))
  {
    var data := header + rest;
    assert data[IANA_MIN_LEN..] == rest;
    assert data[0..4] == header[0..4] && data[4..8] == header[4..8] && data[8..12] == header[8..12];
  }

  /** The decoder as a loop over a shrinking rest of the data. */
  method UnmarshalBinary(data: bytes) returns (r: Result<IANA, DecodeError>)
    ensures r == Decode(data)
  {
    if |data| < IANA_MIN_LEN {
      return Err(ShortHeader);
    }
    var opt := WithHeader(data, []);
    var nested := data[IANA_MIN_LEN..];
    var i := 0;
    JoinJoins([], [], DecodeNested(nested, 0));
    while |nested| >= 4
      invariant DecodeNested(data[IANA_MIN_LEN..], 0) == Join(opt.nested, DecodeNested(nested, i))
      invariant opt == WithHeader(data, opt.nested)
      decreases |nested|
    {
      var code := FromBE(nested[0..2]);
      var l := FromBE(nested[2..4]);
      if l > |nested| - 4 {
        return Err(Overrun(i));
      }
      if code == OPT_IAADDR {
        if l < IAADDR_DATA_LEN {
          return Err(ShortAddr(i));
        }
        var addr := DecodeAddr(nested[4..4 + l]);
        JoinJoins(opt.nested, [addr], DecodeNested(nested[4 + l..], i + 1));
        opt := opt.(nested := opt.nested + [addr]);
      } else {
        JoinJoins(opt.nested, [], DecodeNested(nested[4 + l..], i + 1));
      }
      nested := nested[4 + l..];
      i := i + 1;
    }
    JoinJoins(opt.nested, [], Ok([]));
    r := Ok(opt);
  }

  /** What a decoder must make of options ts followed by a rest that is short or overruns. */
  function Meaning(ts: seq<Tlv>, overrun: bool, index: nat): Result<seq<IAAddr>, DecodeError>
    decreases |ts|
  {
    if ts == [] then (if overrun then Err(Overrun(index)) else Ok([]))
    else if ts[0].code == OPT_IAADDR && |ts[0].body| < IAADDR_DATA_LEN then Err(ShortAddr(index))
    else
      Join(if ts[0].code == OPT_IAADDR then [DecodeAddr(ts[0].body)] else [], Meaning(ts[1..], overrun, index + 1))
  }

  /** The addresses of the IA Address options of ts, in order. */
  function Addresses(ts: seq<Tlv>): seq<IAAddr>
    requires forall t :: t in ts && t.code == OPT_IAADDR ==> |t.body| >= IAADDR_DATA_LEN
  {
    if ts == [] then []
    else (if ts[0].code == OPT_IAADDR then [DecodeAddr(ts[0].body)] else []) + Addresses(ts[1..])
  }

  lemma PrintParts(t: Tlv, rest: bytes)
    requires Printable(t)
    ensures var data := Print(t) + rest;
            && |data| >= 4 && FromBE(data[0..2]) == t.code && FromBE(data[2..4]) == |t.body|
            && |data| == 4 + |t.body| + |rest| && data[4..4 + |t.body|] == t.body && data[4 + |t.body|..] == rest
  {
    var data := Print(t) + rest;
    Widths();
    FromToBE(t.code, 2);
    FromToBE(|t.body|, 2);
    assert data[0..2] == BE(t.code, 2) && data[2..4] == BE(|t.body|, 2);
  }

  /** Decoding printed options gives what they mean. */
  lemma {:induction false} DecodePrinted(ts: seq<Tlv>, rest: bytes, index: nat)
    requires (forall t :: t in ts ==> Printable(t)) && (|rest| < 4 || Overruns(rest))
    ensures DecodeNested(PrintAll(ts) + rest, index) == Meaning(ts, Overruns(rest), index)
    decreases |ts|
  {
    if ts == [] {
      assert PrintAll(ts) + rest == rest;
    } else {
      assert PrintAll(ts) + rest == Print(ts[0]) + (PrintAll(ts[1..]) + rest);
      PrintParts(ts[0], PrintAll(ts[1..]) + rest);
      DecodePrinted(ts[1..], rest, index + 1);
    }
  }

  /** Every byte string is a list of options and a rest that is short or overruns. */
  lemma {:induction false} EveryStringParses(data: bytes) returns (ts: seq<Tlv>, rest: bytes)
    ensures data == PrintAll(ts) + rest && (|rest| < 4 || Overruns(rest))
    ensures forall t :: t in ts ==> Printable(t)
    decreases |data|
  {
    if |data| < 4 || Overruns(data) {
      return [], data;
    }
    var l := FromBE(data[2..4]);
    FromBEBound(data[0..2]);
    FromBEBound(data[2..4]);
    Widths();
    var t := Tlv(FromBE(data[0..2]), data[4..4 + l]);
    ToFromBE(data[0..2]);
    ToFromBE(data[2..4]);
    assert data == Print(t) + data[4 + l..];
    var ts', rest' := EveryStringParses(data[4 + l..]);
    ts, rest := [t] + ts', rest';
    assert ts[1..] == ts';
    assert PrintAll(ts) + rest == Print(t) + (PrintAll(ts') + rest);
  }

  /** When the options mean a list of addresses, and which. */
  lemma {:induction false} MeaningIff(ts: seq<Tlv>, overrun: bool, index: nat)
    ensures Meaning(ts, overrun, index).Ok? <==>
      !overrun && forall t :: t in ts && t.code == OPT_IAADDR ==> |t.body| >= IAADDR_DATA_LEN
    ensures Meaning(ts, overrun, index).Ok? ==> Meaning(ts, overrun, index).value == Addresses(ts)
    decreases |ts|
  {
    if ts != [] {
      MeaningIff(ts[1..], overrun, index + 1);
      assert forall t :: t in ts <==> t == ts[0] || t in ts[1..];
    }
  }

  /**
   * The decoder is total: any string of at least a header is options and a rest, and it fails
   * exactly when the rest overruns or an address option is short; otherwise it gives the addresses
   * in order.  A shorter string is refused.
   */
  lemma DecodeIff(data: bytes) returns (ts: seq<Tlv>, rest: bytes)
    ensures |data| < IANA_MIN_LEN ==> Decode(data) == Err(ShortHeader)
    ensures |data| >= IANA_MIN_LEN ==>
      && data[IANA_MIN_LEN..] == PrintAll(ts) + rest && (|rest| < 4 || Overruns(rest))
      && (Decode(data).Ok? <==>
           !Overruns(rest) && forall t :: t in ts && t.code == OPT_IAADDR ==> |t.body| >= IAADDR_DATA_LEN)
      && (Decode(data).Ok? ==> Decode(data).value.nested == Addresses(ts))
  {
    if |data| < IANA_MIN_LEN {
      return [], [];
    }
    ts, rest := EveryStringParses(data[IANA_MIN_LEN..]);
    DecodePrinted(ts, rest, 0);
    MeaningIff(ts, Overruns(rest), 0);
  }

  lemma {:induction false} AddressesSkip(before: seq<Tlv>, t: Tlv, after: seq<Tlv>)
    requires t.code != OPT_IAADDR
    requires forall u :: u in before + after && u.code == OPT_IAADDR ==> |u.body| >= IAADDR_DATA_LEN
    ensures Addresses(before + [t] + after) == Addresses(before + after)
    decreases |before|
  {
    if before == [] {
      assert (before + [t] + after)[1..] == after && before + after == after;
    } else {
      assert (before + [t] + after)[1..] == before[1..] + [t] + after;
      assert (before + after)[1..] == before[1..] + after;
      assert forall u :: u in before[1..] + after ==> u in before + after;
      AddressesSkip(before[1..], t, after);
    }
  }

  /** Options of other codes change nothing, wherever they stand. */
  lemma OtherOptionsAreIgnored(header: bytes, before: seq<Tlv>, t: Tlv, after: seq<Tlv>, rest: bytes)
    requires |header| == IANA_MIN_LEN && t.code != OPT_IAADDR && Printable(t) && (|rest| < 4 || Overruns(rest))
    requires forall u :: u in before + after ==> Printable(u)
    ensures var with := Decode(header + PrintAll(before + [t] + after) + rest);
            var without := Decode(header + PrintAll(before + after) + rest);
            && (with.Ok? <==> without.Ok?)
            && (with.Ok? ==> with == without)
  {
    var ts, us := before + [t] + after, before + after;
    assert header + PrintAll(ts) + rest == header + (PrintAll(ts) + rest);
    assert header + PrintAll(us) + rest == header + (PrintAll(us) + rest);
    DecodeAfterHeader(header, PrintAll(ts) + rest);
    DecodeAfterHeader(header, PrintAll(us) + rest);
    assert forall u :: u in ts <==> u == t || u in us;
    DecodePrinted(ts, rest, 0);
    DecodePrinted(us, rest, 0);
    MeaningIff(ts, Overruns(rest), 0);
    MeaningIff(us, Overruns(rest), 0);
    if Meaning(us, Overruns(rest), 0).Ok? {
      AddressesSkip(before, t, after);
    }
  }

  /** The bytes of netip.Addr.AppendBinary: 4 or 16 bytes, and the zone. */
  function AddrBytes(ip: Addr): bytes {
    match ip
    case NoAddr => []
    case V4(v) => BE(v, 4)
    case V6(v, zone) => BE(v, 16) + seq(|zone|, i requires 0 <= i < |zone| => zone[i] as int % 0x100)
  }

  /** appendTo: the option header announces 24 bytes, whatever the address takes. */
  function EncodeAddr(ia: IAAddr, conv: Conversion): bytes {
    BE(OPT_IAADDR, 2) + BE(IAADDR_DATA_LEN, 2) + AddrBytes(ia.addr) +
    BE(ToSeconds(ia.preferred, conv), 4) + BE(ToSeconds(ia.valid, conv), 4)
  }

  function EncodeHeader(id: u32, t1: Duration, t2: Duration, conv: Conversion): bytes {
    BE(id, 4) + BE(ToSeconds(t1, conv), 4) + BE(ToSeconds(t2, conv), 4)
  }

  function EncodeNested(nested: seq<IAAddr>, conv: Conversion): bytes {
    if nested == [] then [] else EncodeNested(nested[..|nested| - 1], conv) + EncodeAddr(nested[|nested| - 1], conv)
  }

  /** The data of the encoded option. */
  function EncodeData(opt: IANA, conv: Conversion): bytes {
    EncodeHeader(opt.id, opt.t1, opt.t2, conv) + EncodeNested(opt.nested, conv)
  }

  lemma EncodeNext(header: bytes, nested: seq<IAAddr>, k: nat, conv: Conversion)
    requires k < |nested|
    ensures header + EncodeNested(nested[..k + 1], conv) ==
            (header + EncodeNested(nested[..k], conv)) + EncodeAddr(nested[k], conv)
  {
    assert nested[..k + 1][..k] == nested[..k];
  }

  method Encode(opt: IANA, conv: Conversion) returns (data: bytes)
    ensures data == EncodeData(opt, conv)
  {
    data := EncodeHeader(opt.id, opt.t1, opt.t2, conv);
    assert data + EncodeNested([], conv) == data;
    for k := 0 to |opt.nested|
      invariant data == EncodeHeader(opt.id, opt.t1, opt.t2, conv) + EncodeNested(opt.nested[..k], conv)
    {
      EncodeNext(EncodeHeader(opt.id, opt.t1, opt.t2, conv), opt.nested, k, conv);
      data := data + EncodeAddr(opt.nested[k], conv);
    }
    assert opt.nested[..|opt.nested|] == opt.nested;
  }

  /** An IPv6 address without a zone, the only kind that fits the option. */
  predicate Plain(ip: Addr) {
    ip.V6? && ip.zone == ""
  }

  predicate Encodable(opt: IANA) {
    && Fits(opt.t1) && Fits(opt.t2)
    && forall ia :: ia in opt.nested ==> Plain(ia.addr) && Fits(ia.preferred) && Fits(ia.valid)
  }

  function ToTlv(ia: IAAddr, conv: Conversion): Tlv {
    Tlv(OPT_IAADDR, AddrBytes(ia.addr) + BE(ToSeconds(ia.preferred, conv), 4) + BE(ToSeconds(ia.valid, conv), 4))
  }

  lemma AddrReadsBack(ia: IAAddr, conv: Conversion)
    requires Plain(ia.addr) && Fits(ia.preferred) && Fits(ia.valid)
    ensures EncodeAddr(ia, conv) == Print(ToTlv(ia, conv)) && |ToTlv(ia, conv).body| == IAADDR_DATA_LEN
    ensures DecodeAddr(ToTlv(ia, conv).body) == ia
  {
    var body := ToTlv(ia, conv).body;
    Widths();
    FromToBE(ia.addr.v6, 16);
    FromToBE(ToSeconds(ia.preferred, conv), 4);
    FromToBE(ToSeconds(ia.valid, conv), 4);
    assert body[0..16] == BE(ia.addr.v6, 16) && body[16..20] == BE(ToSeconds(ia.preferred, conv), 4);
    assert body[20..24] == BE(ToSeconds(ia.valid, conv), 4);
    assert EncodeAddr(ia, conv) == Print(ToTlv(ia, conv));
  }

  lemma HeaderReadsBack(id: u32, t1: Duration, t2: Duration, nested: seq<IAAddr>, conv: Conversion)
    requires Fits(t1) && Fits(t2)
    ensures |EncodeHeader(id, t1, t2, conv)| == IANA_MIN_LEN
    ensures WithHeader(EncodeHeader(id, t1, t2, conv), nested) == IANA(id, t1, t2, nested)
  {
    var header := EncodeHeader(id, t1, t2, conv);
    Widths();
    FromToBE(id, 4);
    FromToBE(ToSeconds(t1, conv), 4);
    FromToBE(ToSeconds(t2, conv), 4);
    assert header[0..4] == BE(id, 4) && header[4..8] == BE(ToSeconds(t1, conv), 4);
    assert header[8..12] == BE(ToSeconds(t2, conv), 4);
  }

  lemma {:induction false} EncodeNestedFront(first: IAAddr, rest: seq<IAAddr>, conv: Conversion)
    ensures EncodeNested([first] + rest, conv) == EncodeAddr(first, conv) + EncodeNested(rest, conv)
  {
    var all := [first] + rest;
    if rest != [] {
      EncodeNestedFront(first, rest[..|rest| - 1], conv);
      assert all[..|all| - 1] == [first] + rest[..|rest| - 1];
    } else {
      assert all[..0] == [];
    }
  }

  lemma {:induction false} NestedReadsBack(nested: seq<IAAddr>, index: nat, conv: Conversion)
    requires forall ia :: ia in nested ==> Plain(ia.addr) && Fits(ia.preferred) && Fits(ia.valid)
    ensures DecodeNested(EncodeNested(nested, conv), index) == Ok(nested)
    decreases |nested|
  {
    if nested != [] {
      var first, rest := nested[0], nested[1..];
      assert nested == [first] + rest;
      EncodeNestedFront(first, rest, conv);
      AddrReadsBack(first, conv);
      PrintParts(ToTlv(first, conv), EncodeNested(rest, conv));
      NestedReadsBack(rest, index + 1, conv);
    }
  }

  lemma {:induction false} DecodedArePlain(data: bytes, index: nat)
    ensures DecodeNested(data, index).Ok? ==> forall ia :: ia in DecodeNested(data, index).value ==>
      Plain(ia.addr) && Fits(ia.preferred) && Fits(ia.valid)
    decreases |data|
  {
    if |data| >= 4 && !Overruns(data) {
      DecodedArePlain(data[4 + FromBE(data[2..4])..], index + 1);
    }
  }

  /**
   * Decoding an encoded option gives it back if and only if its durations are whole seconds in 32
   * bits and its addresses are IPv6 addresses without zones; any number of addresses will do, and the
   * platform does not matter.
   */
  lemma RoundTripIff(opt: IANA, conv: Conversion)
    ensures Decode(EncodeData(opt, conv)) == Ok(opt) <==> Encodable(opt)
  {
    if Encodable(opt) {
      HeaderReadsBack(opt.id, opt.t1, opt.t2, opt.nested, conv);
      NestedReadsBack(opt.nested, 0, conv);
      DecodeAfterHeader(EncodeHeader(opt.id, opt.t1, opt.t2, conv), EncodeNested(opt.nested, conv));
    } else if Decode(EncodeData(opt, conv)).Ok? {
      DecodedArePlain(EncodeData(opt, conv)[IANA_MIN_LEN..], 0);
    }
  }

  /** What follows the address and the lifetimes inside an address option changes nothing. */
  lemma AddrIgnoresTrailer(ia: IAAddr, trailer: bytes, conv: Conversion)
    requires Plain(ia.addr) && Fits(ia.preferred) && Fits(ia.valid)
    ensures |ToTlv(ia, conv).body| == 24 && DecodeAddr(ToTlv(ia, conv).body + trailer) == ia
  {
    var body := ToTlv(ia, conv).body;
    var longer := body + trailer;
    AddrReadsBack(ia, conv);
    assert longer[0..16] == body[0..16] && longer[16..20] == body[16..20] && longer[20..24] == body[20..24];
  }

  /** The address options of nested, each with options of its own after the lifetimes. */
  function WithTrailers(nested: seq<IAAddr>, trailers: seq<bytes>, conv: Conversion): seq<Tlv>
    requires |trailers| == |nested|
  {
    if nested == [] then []
    else [Tlv(5, ToTlv(nested[0], conv).body + trailers[0])] + WithTrailers(nested[1..], trailers[1..], conv)
  }

  lemma {:induction false} TrailersMean(nested: seq<IAAddr>, trailers: seq<bytes>, conv: Conversion, index: nat)
    requires |trailers| == |nested| && forall k :: 0 <= k < |trailers| ==> |trailers[k]| + 24 < 0x1_0000
    requires forall ia :: ia in nested ==> Plain(ia.addr) && Fits(ia.preferred) && Fits(ia.valid)
    ensures Meaning(WithTrailers(nested, trailers, conv), false, index) == Ok(nested)
    ensures forall t :: t in WithTrailers(nested, trailers, conv) ==> Printable(t)
    decreases |nested|
  {
    if nested != [] {
      AddrIgnoresTrailer(nested[0], trailers[0], conv);
      TrailersMean(nested[1..], trailers[1..], conv, index + 1);
      assert WithTrailers(nested, trailers, conv)[1..] == WithTrailers(nested[1..], trailers[1..], conv);
      assert nested == [nested[0]] + nested[1..];
    }
  }

  /** Options nested in address options are ignored: the option decodes to the same as without them. */
  lemma TrailersAreIgnored(opt: IANA, trailers: seq<bytes>, conv: Conversion)
    requires Encodable(opt) && |trailers| == |opt.nested|
    requires forall k :: 0 <= k < |trailers| ==> |trailers[k]| + 24 < 0x1_0000
    ensures var header := BE(opt.id, 4) + BE(opt.t1 / 1_000_000_000, 4) + BE(opt.t2 / 1_000_000_000, 4);
            Decode(header + PrintAll(WithTrailers(opt.nested, trailers, conv))) == Ok(opt)
  {
    var header := EncodeHeader(opt.id, opt.t1, opt.t2, conv);
    var ts := WithTrailers(opt.nested, trailers, conv);
    TrailersMean(opt.nested, trailers, conv, 0);
    HeaderReadsBack(opt.id, opt.t1, opt.t2, opt.nested, conv);
    assert PrintAll(ts) + [] == PrintAll(ts);
    DecodePrinted(ts, [], 0);
    DecodeAfterHeader(header, PrintAll(ts));
  }

  /**
   * The bytes of an address option: 16 of the address, four of the preferred and four of the valid
   * lifetime in seconds; what follows is not looked at.
   */
  lemma AddrOfParts(addr: bytes, preferred: bytes, valid: bytes, trailer: bytes)
    requires |addr| == 16 && |preferred| == |valid| == 4
    ensures var ia := DecodeAddr(addr + preferred + valid + trailer);
            && ia.addr.V6? && ia.addr.zone == "" && ia.addr.v6 == FromBE(addr)
            && ia.preferred == FromBE(preferred) * 1_000_000_000 && ia.valid == FromBE(valid) * 1_000_000_000
  {
    Parts(addr, preferred, valid, trailer);
  }

  /** The fixed fields of the option, in 32-bit words: the association, and T1 and T2 in seconds. */
  lemma HeaderOfWords(id: bytes, t1: bytes, t2: bytes, nested: seq<IAAddr>)
    requires |id| == |t1| == |t2| == 4
    ensures var opt := WithHeader(id + t1 + t2, nested);
            && opt.id == FromBE(id) && opt.nested == nested
            && opt.t1 == FromBE(t1) * 1_000_000_000 && opt.t2 == FromBE(t2) * 1_000_000_000
  {
    Parts(id, t1, t2, []);
    assert id + t1 + t2 + [] == id + t1 + t2;
  }

  /** An IA Address option, code 5, is read as one address. */
  lemma NestedOfBytes(body: bytes)
    requires |body| == 24
    ensures DecodeNested([0, 5] + [0, 24] + body, 0) == Ok([DecodeAddr(body)])
  {
    var t := Tlv(5, body);
    SmallNumbers();
    assert Print(t) == [0, 5] + [0, 24] + body;
    PrintParts(t, []);
    assert Print(t) + [] == Print(t);
    JoinJoins([DecodeAddr(body)], [], DecodeNested([], 1));
  }

  lemma SmallNumbers()
    ensures BE(0, 4) == [0, 0, 0, 0]
    ensures BE(2, 2) == [0, 2] && BE(5, 2) == [0, 5] && BE(13, 2) == [0, 13] && BE(24, 2) == [0, 24]
  {
    assert BE(0, 1) == [0] && BE(0, 2) == [0, 0] && BE(0, 3) == [0, 0, 0];
  }

  /** 2001:db8::1. */
  lemma AddressOfBytes()
    ensures FromBE([0x20, 0x01, 0x0D, 0xB8] + [0, 0, 0, 0] + [0, 0, 0, 0] + [0, 0, 0, 1]) ==
            0x2001_0DB8_0000_0000_0000_0000_0000_0001
  {
    FourWords([0x20, 0x01, 0x0D, 0xB8], [0, 0, 0, 0], [0, 0, 0, 0], [0, 0, 0, 1]);
    Literals(0x20, 0x01, 0x0D, 0xB8);
    Literals(0, 0, 0, 0);
    Literals(0, 0, 0, 1);
  }

  /** 2001:db8::1 for one and two hours. */
  lemma AddrOfBytes(address: bytes)
    requires address == [0x20, 0x01, 0x0D, 0xB8] + [0, 0, 0, 0] + [0, 0, 0, 0] + [0, 0, 0, 1]
    ensures DecodeAddr(address + [0, 0, 0x0E, 0x10] + [0, 0, 0x1C, 0x20]) ==
            IAAddr(V6(0x2001_0DB8_0000_0000_0000_0000_0000_0001, ""), 3600_000_000_000, 7200_000_000_000)
  {
    AddressOfBytes();
    AddrOfParts(address, [0, 0, 0x0E, 0x10], [0, 0, 0x1C, 0x20], []);
    var s: bytes := address + [0, 0, 0x0E, 0x10] + [0, 0, 0x1C, 0x20];
    assert s + [] == s;
    Literals(0, 0, 0x0E, 0x10);
    Literals(0, 0, 0x1C, 0x20);
  }

  /** One whole option by its bytes: association 0x01020304, T1 1800 s, T2 2700 s, and that address. */
  lemma OptionOfBytes()
    ensures var header: bytes := [1, 2, 3, 4] + [0, 0, 0x07, 0x08] + [0, 0, 0x0A, 0x8C];
            var address: bytes := [0x20, 0x01, 0x0D, 0xB8] + [0, 0, 0, 0] + [0, 0, 0, 0] + [0, 0, 0, 1];
            var body: bytes := address + [0, 0, 0x0E, 0x10] + [0, 0, 0x1C, 0x20];
            var addr := V6(0x2001_0DB8_0000_0000_0000_0000_0000_0001, "");
            Decode(header + ([0, 5] + [0, 24] + body)) ==
            Ok(IANA(0x01020304, 1800_000_000_000, 2700_000_000_000, [IAAddr(addr, 3600_000_000_000, 7200_000_000_000)]))
  {
    var header: bytes := [1, 2, 3, 4] + [0, 0, 0x07, 0x08] + [0, 0, 0x0A, 0x8C];
    var address: bytes := [0x20, 0x01, 0x0D, 0xB8] + [0, 0, 0, 0] + [0, 0, 0, 0] + [0, 0, 0, 1];
    var body: bytes := address + [0, 0, 0x0E, 0x10] + [0, 0, 0x1C, 0x20];
    AddrOfBytes(address);
    NestedOfBytes(body);
    DecodeAfterHeader(header, [0, 5] + [0, 24] + body);
    HeaderOfBytes([DecodeAddr(body)]);
  }

  lemma HeaderOfBytes(nested: seq<IAAddr>)
    ensures WithHeader([1, 2, 3, 4] + [0, 0, 0x07, 0x08] + [0, 0, 0x0A, 0x8C], nested) ==
            IANA(0x01020304, 1800_000_000_000, 2700_000_000_000, nested)
  {
    HeaderOfWords([1, 2, 3, 4], [0, 0, 0x07, 0x08], [0, 0, 0x0A, 0x8C], nested);
    Literals(1, 2, 3, 4);
    Literals(0, 0, 0x07, 0x08);
    Literals(0, 0, 0x0A, 0x8C);
  }

  /** A nested IPv4 address makes the option unreadable: its data ends before what it announces. */
  lemma NestedV4Overruns(id: u32, ip: u32, conv: Conversion)
    ensures Decode(EncodeData(IANA(id, 0, 0, [IAAddr(V4(ip), 0, 0)]), conv)) == Err(Overrun(0))
  {
    var ia := IAAddr(V4(ip), 0, 0);
    HeaderReadsBack(id, 0, 0, [], conv);
    Widths();
    FromToBE(IAADDR_DATA_LEN, 2);
    var data := EncodeAddr(ia, conv);
    assert EncodeNested([], conv) == [];
    assert [ia][..0] == [];
    assert EncodeNested([ia], conv) == data;
    assert |data| == 16 && data[2..4] == BE(IAADDR_DATA_LEN, 2);
    DecodeAfterHeader(EncodeHeader(id, 0, 0, conv), data);
  }

  /** The data of an IA_NA option with nothing but a status code. */
  function WithStatus(iaid: u32, status: u16): bytes {
    BE(iaid, 4) + BE(0, 4) + BE(0, 4) + BE(OPT_STATUS_CODE, 2) + BE(2, 2) + BE(status, 2)
  }

  /** What a refusal carries: the association, no times, and a status code option, code 13, with the status. */
  lemma StatusReadsBack(iaid: u32, status: u16)
    ensures var data := WithStatus(iaid, status);
            && |data| == 18 && FromBE(data[0..4]) == iaid && data[4..12] == [0, 0, 0, 0] + [0, 0, 0, 0]
            && data[12..16] == [0, 13] + [0, 2] && FromBE(data[16..18]) == status
  {
    SmallNumbers();
    StatusParts(BE(iaid, 4), BE(status, 2));
    assert WithStatus(iaid, status) ==
           BE(iaid, 4) + ([0, 0, 0, 0] + [0, 0, 0, 0]) + ([0, 13] + [0, 2]) + BE(status, 2);
    Widths();
    FromToBE(iaid, 4);
    FromToBE(status, 2);
  }

  lemma StatusParts(iaid: bytes, status: bytes)
    requires |iaid| == 4 && |status| == 2
    ensures var s := iaid + ([0, 0, 0, 0] + [0, 0, 0, 0]) + ([0, 13] + [0, 2]) + status;
            && s[0..4] == iaid && s[4..12] == [0, 0, 0, 0] + [0, 0, 0, 0]
            && s[12..16] == [0, 13] + [0, 2] && s[16..18] == status
  {
    Parts(iaid, [0, 0, 0, 0] + [0, 0, 0, 0], [0, 13] + [0, 2], status);
  }

  /** A refusal reads as the same identity association, without times and addresses. */
  lemma StatusReadsAsEmpty(iaid: u32, status: u16)
    ensures Decode(WithStatus(iaid, status)) == Ok(IANA(iaid, 0, 0, []))
  {
    var t := Tlv(OPT_STATUS_CODE, BE(status, 2));
    var conv: Conversion := _ => 0;
    HeaderReadsBack(iaid, 0, 0, [], conv);
    assert PrintAll([t]) == Print(t) + PrintAll([]);
    assert WithStatus(iaid, status) == EncodeHeader(iaid, 0, 0, conv) + (PrintAll([t]) + []);
    DecodePrinted([t], [], 0);
    MeaningIff([t], false, 0);
    assert Addresses([t]) == [];
    DecodeAfterHeader(EncodeHeader(iaid, 0, 0, conv), PrintAll([t]) + []);
  }

  /** The first requested address, if there is one. */
  function RequestedAddr(opt: IANA): Option<Addr> {
    if opt.nested == [] || opt.nested[0].addr == NoAddr then None else Some(opt.nested[0].addr)
  }

  /** A decoded option requests an address exactly when it has an IA Address option, and then the first. */
  lemma RequestedIsFirst(data: bytes)
    requires Decode(data).Ok?
    ensures RequestedAddr(Decode(data).value) ==
      if Decode(data).value.nested == [] then None else Some(Decode(data).value.nested[0].addr)
  {
    DecodedArePlain(data[IANA_MIN_LEN..], 0);
  }
}
