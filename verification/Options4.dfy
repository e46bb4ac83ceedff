/** Implicit and explicit DHCPv4 options, and those that a response gets; section 4.3.1 of RFC 2131. */
module Options4 {
  import opened Common

  datatype Opt = Opt(code: byte, data: seq<byte>)

  function CompareCodes(a: Opt, b: Opt): int {
    a.code - b.code
  }

  ghost predicate Sorted(opts: seq<Opt>) {
    forall i, j :: 0 <= i < j < |opts| ==> opts[i].code < opts[j].code
  }

  ghost predicate HasCode(opts: seq<Opt>, code: byte) {
    exists o :: o in opts && o.code == code
  }

  /** The default options of an interface, sorted by code. */
  function ImplicitOptions(subnetMask: seq<byte>, gateway: seq<byte>): seq<Opt> {
    [ Opt(1, subnetMask), Opt(3, gateway),
      Opt(19, [0]), Opt(20, [0]), Opt(22, [0x2, 0x40]), Opt(23, [0x40]), Opt(24, [0, 0, 0x2, 0x58]),
      Opt(25, [0, 0x44, 0x1, 0x28, 0x1, 0xFC, 0x3, 0xEE, 0x5, 0xD4, 0x7, 0xD2, 0x11, 0, 0x1F, 0xE6, 0x45, 0xFA]),
      Opt(27, [0]), Opt(28, [255, 255, 255, 255]), Opt(29, [0]), Opt(30, [0]), Opt(31, [1]), Opt(32, [224, 0, 0, 2]),
      Opt(34, [0]), Opt(35, [0, 0, 0, 0x3C]), Opt(36, [0]),
      Opt(37, [0, 0, 0, 0x3C]), Opt(38, [0, 0, 0x1C, 0x20]), Opt(39, [1]) ]
  }

  lemma ImplicitSorted(subnetMask: seq<byte>, gateway: seq<byte>)
    ensures Sorted(ImplicitOptions(subnetMask, gateway))
  {
    var opts := ImplicitOptions(subnetMask, gateway);
    forall i | 0 <= i < |opts| - 1
      ensures opts[i].code < opts[i + 1].code
    {
    }
    AdjacentSorted(opts);
  }

  function Word16(a: nat, b: nat): nat {
    256 * a + b
  }

  /** The option at position i has the code, and its data is the number in four bytes. */
  predicate IsNumber(opts: seq<Opt>, i: nat, code: byte, n: nat) {
    && i < |opts| && opts[i].code == code && |opts[i].data| == 4
    && Word16(opts[i].data[0], opts[i].data[1]) * 65536 + Word16(opts[i].data[2], opts[i].data[3]) == n
  }

  predicate IsByte(opts: seq<Opt>, i: nat, code: byte, b: byte) {
    i < |opts| && opts[i] == Opt(code, [b])
  }

  /** The switches of a host: off, but for router discovery and the filler byte of keep-alives. */
  lemma SwitchesMean(mask: seq<byte>, gateway: seq<byte>)
    ensures var opts := ImplicitOptions(mask, gateway);
            && IsByte(opts, 2, 19, 0) && IsByte(opts, 3, 20, 0) && IsByte(opts, 8, 27, 0) && IsByte(opts, 10, 29, 0)
            && IsByte(opts, 11, 30, 0) && IsByte(opts, 14, 34, 0) && IsByte(opts, 16, 36, 0)
            && IsByte(opts, 12, 31, 1) && IsByte(opts, 19, 39, 1)
  {
  }

  /** Ten minutes for a path's MTU, one for ARP, 60 hops for TCP, two hours between keep-alives. */
  lemma NumbersMean(mask: seq<byte>, gateway: seq<byte>)
    ensures var opts := ImplicitOptions(mask, gateway);
            && IsNumber(opts, 6, 24, 10 * 60) && IsNumber(opts, 15, 35, 60)
            && IsNumber(opts, 17, 37, 60) && IsNumber(opts, 18, 38, 2 * 60 * 60)
  {
  }

  /** The mask and the gateway are the configured ones; datagrams of 576 bytes, 64 hops for IP. */
  lemma AddressesMean(mask: seq<byte>, gateway: seq<byte>)
    ensures var opts := ImplicitOptions(mask, gateway);
            && |opts| == 20 && opts[0] == Opt(1, mask) && opts[1] == Opt(3, gateway)
            && opts[9] == Opt(28, [255, 255, 255, 255]) && opts[13] == Opt(32, [224, 0, 0, 2])
            && opts[4].code == 22 && |opts[4].data| == 2 && Word16(opts[4].data[0], opts[4].data[1]) == 576
            && IsByte(opts, 5, 23, 64)
  {
  }

  /** The table under code 25 has the MTU plateaus of section 7 of RFC 1191, from 68 up. */
  lemma PlateausMean(mask: seq<byte>, gateway: seq<byte>)
    ensures var o := ImplicitOptions(mask, gateway)[7];
            && o.code == 25 && |o.data| == 18
            && Word16(o.data[0], o.data[1]) == 68 && Word16(o.data[2], o.data[3]) == 296
            && Word16(o.data[4], o.data[5]) == 508 && Word16(o.data[6], o.data[7]) == 1006
            && Word16(o.data[8], o.data[9]) == 1492 && Word16(o.data[10], o.data[11]) == 2002
            && Word16(o.data[12], o.data[13]) == 4352 && Word16(o.data[14], o.data[15]) == 8166
            && Word16(o.data[16], o.data[17]) == 17914
  {
  }

  lemma AdjacentSorted(opts: seq<Opt>)
    requires forall i :: 0 <= i < |opts| - 1 ==> opts[i].code < opts[i + 1].code
    ensures Sorted(opts)
  {
    forall i, j | 0 <= i < j < |opts|
      ensures opts[i].code < opts[j].code
    {
      for k := i + 1 to j
        invariant opts[i].code < opts[k].code
      {
      }
    }
  }

  /** The last configured option with the code: later entries win. */
  function LastFor(conf: seq<Opt>, code: byte): Option<Opt> {
    if conf == [] then None
    else if conf[|conf| - 1].code == code then Some(conf[|conf| - 1])
    else LastFor(conf[..|conf| - 1], code)
  }

  lemma {:induction false} LastForHas(conf: seq<Opt>, code: byte)
    ensures LastFor(conf, code).Some? <==> HasCode(conf, code)
    ensures LastFor(conf, code).Some? ==> LastFor(conf, code).value.code == code
  {
    if conf != [] {
      LastForHas(conf[..|conf| - 1], code);
      assert conf == conf[..|conf| - 1] + [conf[|conf| - 1]];
    }
  }

  /** Position i holds an option with the code, and no later one does. */
  ghost predicate LastWith(conf: seq<Opt>, code: byte, i: int) {
    0 <= i < |conf| && conf[i].code == code && forall j :: i < j < |conf| ==> conf[j].code != code
  }

  lemma {:induction false} LastForIs(conf: seq<Opt>, code: byte)
    ensures forall i :: LastWith(conf, code, i) ==> LastFor(conf, code) == Some(conf[i])
    ensures LastFor(conf, code).Some? ==> exists i :: LastWith(conf, code, i)
  {
    if conf != [] {
      var last, before := |conf| - 1, conf[..|conf| - 1];
      LastForIs(before, code);
      assert forall j :: 0 <= j < last ==> before[j] == conf[j];
      if conf[last].code == code {
        assert LastWith(conf, code, last);
      } else {
        forall i
          ensures LastWith(before, code, i) <==> LastWith(conf, code, i)
        {
        }
      }
    }
  }

  /** What is left of the defaults: those whose code is not configured. */
  ghost predicate IsImplicit(imp0: seq<Opt>, conf: seq<Opt>, imp: seq<Opt>) {
    Sorted(imp) && forall o :: o in imp <==> o in imp0 && !HasCode(conf, o.code)
  }

  /** The last-wins reading of the configuration, in code order. */
  ghost predicate IsExplicit(conf: seq<Opt>, exp: seq<Opt>) {
    Sorted(exp) && forall o :: o in exp <==> LastFor(conf, o.code) == Some(o)
  }

  lemma DeleteAt(opts: seq<Opt>, i: nat)
    requires Sorted(opts) && i < |opts|
    ensures Sorted(Delete(opts, i))
    ensures forall o :: o in Delete(opts, i) <==> o in opts && o.code != opts[i].code
  {
    var after := Delete(opts, i);
    forall o
      ensures o in after <==> o in opts && o.code != opts[i].code
    {
      if o in opts && o.code != opts[i].code {
        var n :| 0 <= n < |opts| && opts[n] == o;
        assert after[if n < i then n else n - 1] == o;
      }
    }
  }

  lemma ReplaceAt(opts: seq<Opt>, i: nat, o: Opt)
    requires Sorted(opts) && i < |opts| && opts[i].code == o.code
    ensures Sorted(opts[i := o])
    ensures forall p :: p in opts[i := o] <==> p == o || (p in opts && p.code != o.code)
  {
    var after := opts[i := o];
    assert after[i] == o;
    forall p | p in opts && p.code != o.code
      ensures p in after
    {
      var n :| 0 <= n < |opts| && opts[n] == p;
      assert after[n] == p;
    }
  }

  lemma InsertAt(opts: seq<Opt>, i: nat, o: Opt)
    requires Sorted(opts) && i <= |opts|
    requires forall k :: 0 <= k < i ==> opts[k].code < o.code
    requires forall k :: i <= k < |opts| ==> opts[k].code > o.code
    ensures Sorted(Insert(opts, i, o))
    ensures forall p :: p in Insert(opts, i, o) <==> p == o || (p in opts && p.code != o.code)
  {
    assert forall p :: p in opts ==> p.code != o.code;
    forall p
      ensures p in Insert(opts, i, o) <==> p == o || p in opts
    {
      InsertMember(opts, i, o, p);
    }
  }

  lemma InsertMember(opts: seq<Opt>, i: nat, o: Opt, p: Opt)
    requires i <= |opts|
    ensures p in Insert(opts, i, o) <==> p == o || p in opts
  {
  }

  lemma ConfigNext(conf: seq<Opt>, k: nat, code: byte)
    requires k < |conf|
    ensures HasCode(conf[..k + 1], code) <==> HasCode(conf[..k], code) || conf[k].code == code
    ensures LastFor(conf[..k + 1], code) == if conf[k].code == code then Some(conf[k]) else LastFor(conf[..k], code)
  {
    assert conf[..k + 1][..k] == conf[..k];
    assert conf[..k + 1] == conf[..k] + [conf[k]];
  }

  /** One configured option: it leaves the implicit list and enters the explicit one. */
  method Configure(imp0: seq<Opt>, o: Opt, exp0: seq<Opt>) returns (imp: seq<Opt>, exp: seq<Opt>)
    requires Sorted(imp0) && Sorted(exp0)
    ensures Sorted(imp) && forall p :: p in imp <==> p in imp0 && p.code != o.code
    ensures Sorted(exp) && forall p :: p in exp <==> p == o || (p in exp0 && p.code != o.code)
  {
    imp, exp := imp0, exp0;
    var i, found := BinarySearchFunc(imp, o, CompareCodes);
    if found {
      DeleteAt(imp, i);
      imp := Delete(imp, i);
    }
    i, found := BinarySearchFunc(exp, o, CompareCodes);
    if found {
      ReplaceAt(exp, i, o);
      exp := exp[i := o];
    } else {
      InsertAt(exp, i, o);
      exp := Insert(exp, i, o);
    }
  }

  /** The implicit and explicit options of an interface from its defaults and its configuration. */
  method Options(imp0: seq<Opt>, conf: seq<Opt>) returns (imp: seq<Opt>, exp: seq<Opt>)
    requires Sorted(imp0)
    ensures IsImplicit(imp0, conf, imp) && IsExplicit(conf, exp)
  {
    imp, exp := imp0, [];
    for k := 0 to |conf|
      invariant IsImplicit(imp0, conf[..k], imp) && IsExplicit(conf[..k], exp)
    {
      forall code {
        ConfigNext(conf, k, code);
      }
      imp, exp := Configure(imp, conf[k], exp);
    }
    assert conf[..|conf|] == conf;
  }

  /** The two lists of an interface share no code. */
  ghost predicate Disjoint(imp: seq<Opt>, exp: seq<Opt>) {
    forall o, p :: o in imp && p in exp ==> o.code != p.code
  }

  lemma ListsAreDisjoint(imp0: seq<Opt>, conf: seq<Opt>, imp: seq<Opt>, exp: seq<Opt>)
    requires IsImplicit(imp0, conf, imp) && IsExplicit(conf, exp)
    ensures Disjoint(imp, exp)
  {
    forall o, p | o in imp && p in exp
      ensures o.code != p.code
    {
      LastForHas(conf, p.code);
    }
  }

  /** DeleteFunc of all options with the code. */
  function Without(opts: seq<Opt>, code: byte): seq<Opt> {
    if opts == [] then []
    else (if opts[0].code == code then [] else [opts[0]]) + Without(opts[1..], code)
  }

  lemma {:induction false} WithoutConcat(a: seq<Opt>, b: seq<Opt>, code: byte)
    ensures Without(a + b, code) == Without(a, code) + Without(b, code)
  {
    if a == [] {
      assert a + b == b;
    } else {
      assert (a + b)[1..] == a[1..] + b;
      WithoutConcat(a[1..], b, code);
    }
  }

  lemma {:induction false} WithoutAbsent(opts: seq<Opt>, code: byte)
    requires forall o :: o in opts ==> o.code != code
    ensures Without(opts, code) == opts
  {
    if opts != [] {
      WithoutAbsent(opts[1..], code);
    }
  }

  lemma {:induction false} WithoutHas(opts: seq<Opt>, code: byte, o: Opt)
    ensures o in Without(opts, code) <==> o in opts && o.code != code
  {
    if opts != [] {
      WithoutHas(opts[1..], code, o);
    }
  }

  /** The options that survive the removals, which are the explicit options without data. */
  function Surviving(base: seq<Opt>, exp: seq<Opt>): seq<Opt> {
    if exp == [] then base
    else
      var last := exp[|exp| - 1];
      var before := Surviving(base, exp[..|exp| - 1]);
      if last.data == [] then Without(before, last.code) else before
  }

  /** The implicit options with the requested codes, in the order of the request. */
  function Requested(imp: seq<Opt>, codes: seq<byte>): seq<Opt> {
    if codes == [] then []
    else
      var last := LastFor(imp, codes[|codes| - 1]);
      Requested(imp, codes[..|codes| - 1]) + if last.Some? then [last.value] else []
  }

  /** The explicit options with data, in code order. */
  function NonEmpty(exp: seq<Opt>): seq<Opt> {
    if exp == [] then []
    else
      NonEmpty(exp[..|exp| - 1]) + if exp[|exp| - 1].data == [] then [] else [exp[|exp| - 1]]
  }

  lemma {:induction false} RequestedHas(imp: seq<Opt>, codes: seq<byte>, o: Opt)
    requires Sorted(imp)
    ensures o in Requested(imp, codes) <==> o in imp && o.code in codes
  {
    if codes != [] {
      var code := codes[|codes| - 1];
      RequestedHas(imp, codes[..|codes| - 1], o);
      SortedLookup(imp, code);
    }
  }

  lemma {:induction false} SortedLookup(opts: seq<Opt>, code: byte)
    requires Sorted(opts)
    ensures forall o :: o in opts && o.code == code <==> LastFor(opts, code) == Some(o)
  {
    if opts != [] {
      var before := opts[..|opts| - 1];
      assert opts == before + [opts[|opts| - 1]];
      SortedLookup(before, code);
    }
  }

  lemma {:induction false} NonEmptyHas(exp: seq<Opt>, o: Opt)
    ensures o in NonEmpty(exp) <==> o in exp && o.data != []
  {
    if exp != [] {
      NonEmptyHas(exp[..|exp| - 1], o);
      assert exp == exp[..|exp| - 1] + [exp[|exp| - 1]];
    }
  }

  lemma {:induction false} SurvivingHas(base: seq<Opt>, exp: seq<Opt>, o: Opt)
    ensures o in Surviving(base, exp) <==> o in base && Opt(o.code, []) !in exp
  {
    if exp != [] {
      var last, before := exp[|exp| - 1], exp[..|exp| - 1];
      SurvivingHas(base, before, o);
      WithoutHas(Surviving(base, before), last.code, o);
      assert exp == before + [last];
    }
  }

  /** What the response options must be. */
  function Response(base: seq<Opt>, imp: seq<Opt>, exp: seq<Opt>, codes: seq<byte>): seq<Opt> {
    Surviving(base, exp) + Requested(imp, codes) + NonEmpty(exp)
  }

  /** The survivors of the base stay in their order: each option is kept or not on its own. */
  lemma {:induction false} SurvivingInOrder(a: seq<Opt>, b: seq<Opt>, exp: seq<Opt>)
    ensures Surviving(a + b, exp) == Surviving(a, exp) + Surviving(b, exp)
  {
    if exp != [] {
      var last, before := exp[|exp| - 1], exp[..|exp| - 1];
      SurvivingInOrder(a, b, before);
      WithoutConcat(Surviving(a, before), Surviving(b, before), last.code);
    }
  }

  lemma {:induction false} SurvivingOne(o: Opt, exp: seq<Opt>)
    ensures Surviving([o], exp) == if Opt(o.code, []) in exp then [] else [o]
  {
    if exp != [] {
      var last, before := exp[|exp| - 1], exp[..|exp| - 1];
      SurvivingOne(o, before);
      assert exp == before + [last];
      assert Without([o], last.code) == if o.code == last.code then [] else [o];
    }
  }

  /** The requested options come in the order of the request: each code gives its option or nothing. */
  lemma {:induction false} RequestedInOrder(imp: seq<Opt>, a: seq<byte>, b: seq<byte>)
    ensures Requested(imp, a + b) == Requested(imp, a) + Requested(imp, b)
    decreases |b|
  {
    if b == [] {
      assert a + b == a;
    } else {
      RequestedInOrder(imp, a, b[..|b| - 1]);
      assert (a + b)[..|a + b| - 1] == a + b[..|b| - 1];
    }
  }

  lemma RequestedOne(imp: seq<Opt>, code: byte, o: Opt)
    requires Sorted(imp)
    ensures o in imp && o.code == code ==> Requested(imp, [code]) == [o]
    ensures (forall p :: p in imp ==> p.code != code) ==> Requested(imp, [code]) == []
  {
    SortedLookup(imp, code);
    LastForHas(imp, code);
    assert [code][..0] == [];
  }

  /** The explicit options come in the order of their codes. */
  lemma {:induction false} NonEmptyInOrder(exp: seq<Opt>)
    requires Sorted(exp)
    ensures Sorted(NonEmpty(exp))
  {
    if exp != [] {
      var last, before := exp[|exp| - 1], exp[..|exp| - 1];
      NonEmptyInOrder(before);
      forall o | o in NonEmpty(before)
        ensures o.code < last.code
      {
        NonEmptyHas(before, o);
      }
    }
  }

  const OPT_PARAMS_REQUEST: byte := 55

  predicate IsRequestList(o: Opt) {
    o.code == OPT_PARAMS_REQUEST && o.data != []
  }

  /** The codes of the first non-empty parameter request list of the message. */
  function RequestedCodes(msg: seq<Opt>): seq<byte> {
    if msg == [] then []
    else if IsRequestList(msg[0]) then msg[0].data
    else RequestedCodes(msg[1..])
  }

  /** The list at i counts if none before it does; without any there are no codes. */
  lemma {:induction false} FirstListCounts(msg: seq<Opt>, i: nat)
    requires i <= |msg| && forall j :: 0 <= j < i ==> !IsRequestList(msg[j])
    requires i < |msg| ==> IsRequestList(msg[i])
    ensures RequestedCodes(msg) == if i < |msg| then msg[i].data else []
  {
    if i > 0 {
      FirstListCounts(msg[1..], i - 1);
    }
  }

  /** A request list is an option 55 with data. */
  lemma RequestListIff(o: Opt)
    ensures IsRequestList(o) <==> o.code == 55 && |o.data| > 0
  {
  }

  method RequestedOptions(msg: seq<Opt>) returns (codes: seq<byte>)
    ensures codes == RequestedCodes(msg)
  {
    for i := 0 to |msg|
      invariant forall j :: 0 <= j < i ==> !IsRequestList(msg[j])
    {
      if msg[i].code != OPT_PARAMS_REQUEST || |msg[i].data| == 0 {
        continue;
      }
      FirstListCounts(msg, i);
      codes := [];
      for k := 0 to |msg[i].data|
        invariant codes == msg[i].data[..k]
      {
        codes := codes + [msg[i].data[k]];
      }
      return;
    }
    FirstListCounts(msg, |msg|);
    codes := [];
  }

  /** Removing a code that only the base may have leaves the other two parts alone. */
  lemma RemoveFromBase(base: seq<Opt>, imp: seq<Opt>, exp: seq<Opt>, codes: seq<byte>, k: nat)
    requires Sorted(imp) && Sorted(exp) && Disjoint(imp, exp) && k < |exp| && exp[k].data == []
    ensures Without(Surviving(base, exp[..k]) + Requested(imp, codes) + NonEmpty(exp[..k]), exp[k].code) ==
            Surviving(base, exp[..k + 1]) + Requested(imp, codes) + NonEmpty(exp[..k + 1])
  {
    var code := exp[k].code;
    var a, b, c := Surviving(base, exp[..k]), Requested(imp, codes), NonEmpty(exp[..k]);
    WithoutConcat(a + b, c, code);
    WithoutConcat(a, b, code);
    forall o | o in b
      ensures o.code != code
    {
      RequestedHas(imp, codes, o);
      assert exp[k] in exp;
    }
    forall o | o in c
      ensures o.code != code
    {
      NonEmptyHas(exp[..k], o);
    }
    WithoutAbsent(b, code);
    WithoutAbsent(c, code);
    assert exp[..k + 1][..k] == exp[..k];
  }

  method AppendRequestedOptions(base: seq<Opt>, imp: seq<Opt>, exp: seq<Opt>, req: seq<Opt>) returns (opts: seq<Opt>)
    requires Sorted(imp) && Sorted(exp) && Disjoint(imp, exp)
    ensures opts == Response(base, imp, exp, RequestedCodes(req))
    ensures opts == Surviving(base, exp) + Requested(imp, RequestedCodes(req)) + NonEmpty(exp)
  {
    var codes := RequestedOptions(req);
    opts := base;
    for k := 0 to |codes|
      invariant opts == base + Requested(imp, codes[..k])
    {
      assert codes[..k + 1][..k] == codes[..k];
      SortedLookup(imp, codes[k]);
      var i, has := BinarySearchFunc(imp, Opt(codes[k], []), CompareCodes);
      if has {
        assert imp[i] in imp;
        opts := opts + [imp[i]];
      } else {
        NotFound(imp, i, codes[k]);
      }
    }
    assert codes[..|codes|] == codes;
    for k := 0 to |exp|
      invariant opts == Surviving(base, exp[..k]) + Requested(imp, codes) + NonEmpty(exp[..k])
    {
      assert exp[..k + 1][..k] == exp[..k];
      if |exp[k].data| > 0 {
        opts := opts + [exp[k]];
      } else {
        RemoveFromBase(base, imp, exp, codes, k);
        opts := Without(opts, exp[k].code);
      }
    }
    assert exp[..|exp|] == exp;
  }

  lemma NotFound(opts: seq<Opt>, i: nat, code: byte)
    requires Sorted(opts) && i <= |opts| && !(i < |opts| && opts[i].code == code)
    requires (forall k :: 0 <= k < i ==> opts[k].code < code) && (forall k :: i <= k < |opts| ==> opts[k].code >= code)
    ensures LastFor(opts, code).None?
  {
    LastForHas(opts, code);
  }

  /**
   * Which options a response has, in terms of the configuration: a base option unless the
   * configuration removes its code, a requested default unless its code is configured, and a
   * configured option if it is the last one for its code and has data.
   */
  lemma ResponseHas(
    base: seq<Opt>, imp0: seq<Opt>, conf: seq<Opt>, imp: seq<Opt>, exp: seq<Opt>, codes: seq<byte>, o: Opt)
    requires IsImplicit(imp0, conf, imp) && IsExplicit(conf, exp)
    ensures o in Response(base, imp, exp, codes) <==>
      || (o in base && LastFor(conf, o.code) != Some(Opt(o.code, [])))
      || (o in imp0 && o.code in codes && !HasCode(conf, o.code))
      || (LastFor(conf, o.code) == Some(o) && o.data != [])
  {
    SurvivingHas(base, exp, o);
    RequestedHas(imp, codes, o);
    NonEmptyHas(exp, o);
    LastForHas(conf, o.code);
  }
}
