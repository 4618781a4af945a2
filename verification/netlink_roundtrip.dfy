/** An encoder for link dumps, and the proof that the parser recovers what was encoded. */
module NetlinkRoundTrip {
  import opened Words
  import opened Interfaces
  import opened Netlink

  datatype Attr = Attr(kind: nat, payload: seq<byte>)

  /** `header` is flags, sequence number and port; `before` and `after` are the parts of `ifinfomsg` around the
      index. */
  datatype Message =
    | Link(header: seq<byte>, before: seq<byte>, ifindex: int, after: seq<byte>, attrs: seq<Attr>)
    | Done(header: seq<byte>, payload: seq<byte>)
    | Other(kind: nat, header: seq<byte>, payload: seq<byte>)

  // ---------------------------------------------------------------- encoding

  function Encode16(n: nat): seq<byte>
    requires n < 0x1_0000
  {
    [n % 0x100, n / 0x100]
  }

  function Encode32(n: nat): seq<byte>
    requires n < 0x1_0000_0000
  {
    [n % 0x100, n / 0x100 % 0x100, n / 0x1_0000 % 0x100, n / 0x100_0000]
  }

  function Padding(n: nat): seq<byte> {
    seq(Align4(n) - n, _ => 0)
  }

  predicate AttrOk(a: Attr) {
    && a.kind < 0x1_0000 && 4 + |a.payload| < 0x1_0000
    && (a.kind == IFLA_IFNAME ==> 0 in a.payload || |a.payload| >= IFNAMSIZ - 1)
  }

  function EncodeAttr(a: Attr): (b: seq<byte>)
    requires AttrOk(a)
    ensures |b| == Align4(4 + |a.payload|)
  {
    Encode16(4 + |a.payload|) + Encode16(a.kind) + a.payload + Padding(4 + |a.payload|)
  }

  predicate AttrsOk(attrs: seq<Attr>) {
    forall a :: a in attrs ==> AttrOk(a)
  }

  function EncodeAttrs(attrs: seq<Attr>): (b: seq<byte>)
    requires AttrsOk(attrs)
    ensures |b| % 4 == 0
  {
    if attrs == [] then []
    else
      hide EncodeAttr, Align4, AttrOk;
      EncodeAttr(attrs[0]) + EncodeAttrs(attrs[1..])
  }

  function Kind(m: Message): nat {
    match m case Link(_, _, _, _, _) => RTM_NEWLINK case Done(_, _) => NLMSG_DONE case Other(k, _, _) => k
  }

  predicate MessageOk(m: Message) {
    && |m.header| == 10 && Kind(m) < 0x1_0000
    && (m.Link? ==> |m.before| == 4 && |m.after| == 8 && -0x8000_0000 <= m.ifindex < 0x8000_0000 && AttrsOk(m.attrs))
    && (m.Other? ==> m.kind != RTM_NEWLINK && m.kind != NLMSG_DONE)
    && 16 + |Body(m)| < 0x1_0000_0000
  }

  function Unsigned32(i: int): nat
    requires -0x8000_0000 <= i < 0x8000_0000
  {
    if i < 0 then i + 0x1_0000_0000 else i
  }

  function Body(m: Message): seq<byte>
    requires m.Link? ==> -0x8000_0000 <= m.ifindex < 0x8000_0000 && AttrsOk(m.attrs)
  {
    match m
    case Link(_, before, ifindex, after, attrs) =>
      before + Encode32(Unsigned32(ifindex)) + after + EncodeAttrs(attrs)
    case Done(_, payload) => payload
    case Other(_, _, payload) => payload
  }

  function EncodeMessage(m: Message): (b: seq<byte>)
    requires MessageOk(m)
    ensures |b| == Align4(16 + |Body(m)|)
  {
    Encode32(16 + |Body(m)|) + Encode16(Kind(m)) + m.header + Body(m) + Padding(16 + |Body(m)|)
  }

  predicate MessagesOk(ms: seq<Message>) {
    forall m :: m in ms ==> MessageOk(m)
  }

  function EncodeAll(ms: seq<Message>): seq<byte>
    requires MessagesOk(ms)
  {
    if ms == [] then [] else EncodeMessage(ms[0]) + EncodeAll(ms[1..])
  }

  // ---------------------------------------------------------------- what the messages mean

  function NameOf(attrs: seq<Attr>): Option<string> {
    if attrs == [] then None
    else if attrs[0].kind == IFLA_IFNAME then Some(CopyName(attrs[0].payload, IFNAMSIZ - 1))
    else NameOf(attrs[1..])
  }

  /** The links before the first DONE, by index; virtual and nameless ones are left out. */
  function Meaning(ms: seq<Message>, acc: NameMap): NameMap {
    if ms == [] || ms[0].Done? then acc
    else
      var name := if ms[0].Link? then NameOf(ms[0].attrs) else None;
      Meaning(ms[1..],
              if name.Some? && !IsVirtualInterface(name.value) then acc[ms[0].ifindex := name.value] else acc)
  }

  // ---------------------------------------------------------------- round trip

  lemma Decode16(n: nat, rest: seq<byte>)
    requires n < 0x1_0000
    ensures U16At(Encode16(n) + rest, 0) == n
  {
  }

  lemma Decode32(n: nat, rest: seq<byte>)
    requires n < 0x1_0000_0000
    ensures U32At(Encode32(n) + rest, 0) == n
  {
    var b := n / 0x100;
    var c := b / 0x100;
    assert n / 0x1_0000 == c && n / 0x100_0000 == c / 0x100;
  }

  lemma AttrFields(a: Attr, rest: seq<byte>)
    requires AttrOk(a)
    ensures var mem := EncodeAttr(a) + rest;
            && U16At(mem, 0) == 4 + |a.payload| && U16At(mem, 2) == a.kind
            && mem[4..] == a.payload + (Padding(4 + |a.payload|) + rest)
            && mem[|EncodeAttr(a)|..] == rest
  {
    var mem := EncodeAttr(a) + rest;
    Decode16(4 + |a.payload|, []);
    Decode16(a.kind, []);
    assert mem[0..2] == Encode16(4 + |a.payload|) && mem[2..4] == Encode16(a.kind);
  }

  /** One encoded attribute, before whatever the scan still has to go through. */
  lemma AttrStep(a: Attr, more: seq<byte>, n: nat)
    requires AttrOk(a) && n <= |more|
    ensures FirstName(EncodeAttr(a) + more, |EncodeAttr(a)| + n) ==
            if a.kind == IFLA_IFNAME then Some(CopyName(a.payload, IFNAMSIZ - 1)) else FirstName(more, n)
  {
    hide EncodeAttr, Encode16, Padding, CopyName, U16At, FirstName;
    var on := a.payload + (Padding(4 + |a.payload|) + more);
    AttrFields(a, more);
    ScanStep(EncodeAttr(a) + more, |EncodeAttr(a)| + n, 4 + |a.payload|, a.kind, on, more);
    if a.kind == IFLA_IFNAME {
      CopyNameEnds(a.payload, Padding(4 + |a.payload|) + more, IFNAMSIZ - 1);
    }
  }

  lemma {:induction false} AttrsRoundTrip(attrs: seq<Attr>, rest: seq<byte>)
    requires AttrsOk(attrs)
    ensures FirstName(EncodeAttrs(attrs) + rest, |EncodeAttrs(attrs)|) == NameOf(attrs)
  {
    if attrs != [] {
      var a, more := attrs[0], EncodeAttrs(attrs[1..]) + rest;
      assert EncodeAttrs(attrs) + rest == EncodeAttr(a) + more;
      hide FirstName, EncodeAttr, CopyName, Align4, AttrOk;
      AttrStep(a, more, |EncodeAttrs(attrs[1..])|);
      AttrsRoundTrip(attrs[1..], rest);
    }
  }

  lemma FrameFields(len: seq<byte>, kind: seq<byte>, header: seq<byte>, more: seq<byte>)
    requires |len| == 4 && |kind| == 2 && |header| == 10
    ensures var rcv := len + kind + header + more;
            U32At(rcv, 0) == U32At(len, 0) && U16At(rcv, 4) == U16At(kind, 0) && rcv[16..] == more
  {
    var rcv := len + kind + header + more;
    assert rcv[0] == len[0] && rcv[1] == len[1] && rcv[2] == len[2] && rcv[3] == len[3];
    assert rcv[4] == kind[0] && rcv[5] == kind[1];
  }

  lemma MessageFields(m: Message, rest: seq<byte>)
    requires MessageOk(m)
    ensures var rcv := EncodeMessage(m) + rest;
            && NlmsgOk(rcv) && U32At(rcv, 0) == 16 + |Body(m)| && U16At(rcv, 4) == Kind(m)
            && rcv[16..] == Body(m) + (Padding(16 + |Body(m)|) + rest)
            && rcv[|EncodeMessage(m)|..] == rest
  {
    hide Kind, Body, Padding;
    var len, kind, more := Encode32(16 + |Body(m)|), Encode16(Kind(m)), Body(m) + (Padding(16 + |Body(m)|) + rest);
    assert EncodeMessage(m) + rest == len + kind + m.header + more;
    FrameFields(len, kind, m.header, more);
    Decode32(16 + |Body(m)|, []);
    Decode16(Kind(m), []);
    assert len + [] == len && kind + [] == kind;
  }

  lemma LinkBody(before: seq<byte>, index: seq<byte>, after: seq<byte>, attrs: seq<byte>, rest: seq<byte>)
    requires |before| == 4 && |index| == 4 && |after| == 8
    ensures var body := before + index + after + attrs;
            (body + rest)[16..] == attrs + rest && U32At(body + rest, 4) == U32At(index, 0)
  {
    var b := before + index + after + attrs + rest;
    assert b[4] == index[0] && b[5] == index[1] && b[6] == index[2] && b[7] == index[3];
  }

  /** Where the index and the attributes of an encoded link message are found. */
  lemma LinkFields(m: Message, rest: seq<byte>)
    requires MessageOk(m) && m.Link?
    ensures var rcv := EncodeMessage(m) + rest;
            && |rcv| >= 32 && Signed32(U32At(rcv, 20)) == m.ifindex
            && rcv[32..] == EncodeAttrs(m.attrs) + (Padding(16 + |Body(m)|) + rest)
  {
    var rcv, n := EncodeMessage(m) + rest, Unsigned32(m.ifindex);
    MessageFields(m, rest);
    var more := Padding(16 + |Body(m)|) + rest;
    var index := Encode32(n);
    Decode32(n, []);
    assert index + [] == index;
    LinkBody(m.before, index, m.after, EncodeAttrs(m.attrs), more);
    assert rcv[32..] == rcv[16..][16..];
    assert U32At(rcv, 20) == U32At(rcv[16..], 4);
  }

  lemma AddLinkBy(rcv: seq<byte>, attrs: seq<byte>, more: seq<byte>, tail: seq<byte>, acc: NameMap)
    requires NlmsgOk(rcv) && |rcv| >= 32 && U32At(rcv, 0) == 32 + |attrs| && rcv[32..] == attrs + more
    ensures AddLink(rcv, tail, acc) ==
            var name := FirstName(attrs + (more + tail), |attrs|);
            if name.Some? && !IsVirtualInterface(name.value) then acc[Signed32(U32At(rcv, 20)) := name.value] else acc
  {
    assert rcv[32..] + tail == attrs + (more + tail);
  }

  lemma LinkRoundTrip(m: Message, rest: seq<byte>, tail: seq<byte>, acc: NameMap)
    requires MessageOk(m) && m.Link?
    ensures NlmsgOk(EncodeMessage(m) + rest)
    ensures AddLink(EncodeMessage(m) + rest, tail, acc) ==
            var name := NameOf(m.attrs);
            if name.Some? && !IsVirtualInterface(name.value) then acc[m.ifindex := name.value] else acc
  {
    var more := Padding(16 + |Body(m)|) + rest;
    MessageFields(m, rest);
    LinkFields(m, rest);
    AddLinkBy(EncodeMessage(m) + rest, EncodeAttrs(m.attrs), more, tail, acc);
    AttrsRoundTrip(m.attrs, more + tail);
  }

  /** Parsing an encoded dump, whatever follows it in the buffer, yields exactly the map from interface index to
      first name of the non-virtual links before the first DONE. */
  lemma {:induction false} RoundTrip(ms: seq<Message>, tail: seq<byte>, acc: NameMap)
    requires MessagesOk(ms)
    ensures Links(EncodeAll(ms), tail, acc) == Meaning(ms, acc)
    decreases |ms|
  {
    if ms != [] {
      var m, rest := ms[0], EncodeAll(ms[1..]);
      MessageFields(m, rest);
      if m.Link? {
        LinkRoundTrip(m, rest, tail, acc);
        RoundTrip(ms[1..], tail, AddLink(EncodeMessage(m) + rest, tail, acc));
      } else if m.Other? {
        RoundTrip(ms[1..], tail, acc);
      }
    }
  }

  // ---------------------------------------------------------------- names as strings

  /** A link message for an interface: its name attribute stands between attributes of other kinds and any others. */
  datatype Iface = Iface(index: int, name: string, header: seq<byte>, before: seq<byte>, after: seq<byte>,
                         pre: seq<Attr>, post: seq<Attr>)

  predicate NameOk(name: string) {
    |name| <= 15 && forall k :: 0 <= k < |name| ==> 0 < name[k] as int < 256
  }

  function Bytes(name: string): (b: seq<byte>)
    requires NameOk(name)
    ensures |b| == |name| && forall i :: 0 <= i < |name| ==> b[i] as char == name[i]
  {
    if name == "" then [] else [name[0] as int] + Bytes(name[1..])
  }

  /** The bytes of the name and a NUL. */
  function NameAttr(name: string): Attr
    requires NameOk(name)
  {
    Attr(3, Bytes(name) + [0])
  }

  function LinkOf(i: Iface): Message
    requires NameOk(i.name)
  {
    Link(i.header, i.before, i.index, i.after, i.pre + [NameAttr(i.name)] + i.post)
  }

  predicate IfaceOk(i: Iface) {
    NameOk(i.name) && MessageOk(LinkOf(i)) && forall a :: a in i.pre ==> a.kind != 3
  }

  predicate IfacesOk(ifs: seq<Iface>) {
    forall k :: 0 <= k < |ifs| ==> IfaceOk(ifs[k])
  }

  function LinksOf(ifs: seq<Iface>): (ms: seq<Message>)
    requires IfacesOk(ifs)
    ensures MessagesOk(ms)
  {
    if ifs == [] then [] else [LinkOf(ifs[0])] + LinksOf(ifs[1..])
  }

  /** Index to name for every interface that is not virtual; of two with one index the later one. */
  ghost function NamesOf(ifs: seq<Iface>, acc: NameMap): NameMap
    decreases |ifs|
  {
    if ifs == [] then acc
    else NamesOf(ifs[1..], if VirtualByPrefix(ifs[0].name) then acc else acc[ifs[0].index := ifs[0].name])
  }

  lemma {:induction false} NameAfter(pre: seq<Attr>, a: Attr, post: seq<Attr>)
    requires a.kind == 3 && forall p :: p in pre ==> p.kind != 3
    ensures NameOf(pre + [a] + post) == Some(CopyName(a.payload, 15))
  {
    if pre != [] {
      assert pre[0] in pre && forall p :: p in pre[1..] ==> p in pre;
      NameAfter(pre[1..], a, post);
      assert (pre + [a] + post)[1..] == pre[1..] + [a] + post;
    }
  }

  lemma NameComesBack(name: string)
    requires NameOk(name)
    ensures CopyName(NameAttr(name).payload, 15) == name
  {
    var mem := NameAttr(name).payload;
    assert mem[|name|] == 0;
    forall k | 0 <= k < |name| ensures name[k] == mem[k] as char && mem[k] != 0 { }
    CopyNameExactly(mem, 15);
    OneNameAt(CopyName(mem, 15), name, mem, 15);
  }

  lemma {:induction false} MeaningOfLinks(ifs: seq<Iface>, rest: seq<Message>, acc: NameMap)
    requires IfacesOk(ifs)
    ensures Meaning(LinksOf(ifs) + rest, acc) == Meaning(rest, NamesOf(ifs, acc))
    decreases |ifs|
  {
    hide CopyName, IsVirtualInterface, VirtualByPrefix, MessageOk, NameOf;
    if ifs == [] {
      assert [] + rest == rest;
    } else {
      var i := ifs[0];
      NameAfter(i.pre, NameAttr(i.name), i.post);
      NameComesBack(i.name);
      VirtualExactly(i.name);
      var ms := LinksOf(ifs) + rest;
      assert ms[0] == LinkOf(i) && ms[1..] == LinksOf(ifs[1..]) + rest;
      MeaningOfLinks(ifs[1..], rest, if VirtualByPrefix(i.name) then acc else acc[i.index := i.name]);
    }
  }

  /** A dump of any interfaces, ended by DONE and followed by anything, is parsed to exactly their own names, as
      strings, by index, without the virtual ones. */
  lemma NamesRoundTrip(ifs: seq<Iface>, done: Message, later: seq<Message>, tail: seq<byte>)
    requires IfacesOk(ifs)
    requires done.Done? && MessageOk(done) && MessagesOk(later)
    ensures MessagesOk(LinksOf(ifs) + ([done] + later))
    ensures Links(EncodeAll(LinksOf(ifs) + ([done] + later)), tail, map[]) == NamesOf(ifs, map[])
  {
    var rest := [done] + later;
    forall m | m in LinksOf(ifs) + rest ensures MessageOk(m) {
      assert m in LinksOf(ifs) || m == done || m in later;
    }
    hide MessageOk, IfaceOk;
    RoundTrip(LinksOf(ifs) + rest, tail, map[]);
    MeaningOfLinks(ifs, rest, map[]);
  }
}
