/** Parsing the reply to an RTM_GETLINK dump: netlink messages (RFC 3549, section 2.3.2) that carry a link template
    (RFC 3549, section 2.3.3.1) followed by attributes, everything aligned to four bytes. */
module Netlink {
  import opened Words
  import opened Interfaces

  type byte = x: int | 0 <= x < 256

  const NLMSG_DONE := 3
  const RTM_NEWLINK := 16
  const IFLA_IFNAME := 3
  const IFNAMSIZ := 16
  const BUFFER_SIZE := 4096

  type NameMap = map<int, string>

  // ---------------------------------------------------------------- header fields

  /** Little-endian words. */
  function Le16(b0: byte, b1: byte): nat {
    b0 as int + 0x100 * b1 as int
  }

  function Le32(b0: byte, b1: byte, b2: byte, b3: byte): nat {
    b0 as int + 0x100 * b1 as int + 0x1_0000 * b2 as int + 0x100_0000 * b3 as int
  }

  function U16At(b: seq<byte>, i: nat): nat
    requires i + 2 <= |b|
  {
    Le16(b[i], b[i + 1])
  }

  function U32At(b: seq<byte>, i: nat): nat
    requires i + 4 <= |b|
  {
    Le32(b[i], b[i + 1], b[i + 2], b[i + 3])
  }

  function Signed32(u: nat): int {
    if u < 0x8000_0000 then u else u - 0x1_0000_0000
  }

  /** NLMSG_ALIGN and RTA_ALIGN. */
  function Align4(n: nat): (r: nat)
    ensures n <= r < n + 4 && r % 4 == 0
  {
    if n % 4 == 0 then n else n + 4 - n % 4
  }

  /** The string that `strncpy` leaves in a buffer of `limit` + 1 bytes. */
  function CopyName(mem: seq<byte>, limit: nat): (s: string)
    ensures |s| <= limit
    ensures forall c :: c in s ==> c != '\0'
  {
    if mem == [] || mem[0] == 0 || limit == 0 then [] else [mem[0] as char] + CopyName(mem[1..], limit - 1)
  }

  /** The name is the bytes themselves, in order, up to the first NUL, the end of `mem`, or the limit. */
  ghost predicate IsNameAt(s: string, mem: seq<byte>, limit: nat) {
    && |s| <= |mem| && |s| <= limit
    && (forall k :: 0 <= k < |s| ==> s[k] == mem[k] as char && mem[k] != 0)
    && (|s| == limit || |s| == |mem| || mem[|s|] == 0)
  }

  lemma {:induction false} CopyNameExactly(mem: seq<byte>, limit: nat)
    ensures IsNameAt(CopyName(mem, limit), mem, limit)
  {
    if mem != [] && mem[0] != 0 && limit > 0 {
      CopyNameExactly(mem[1..], limit - 1);
      var s, rest := CopyName(mem, limit), CopyName(mem[1..], limit - 1);
      assert s == [mem[0] as char] + rest;
      forall k | 0 <= k < |s| ensures s[k] == mem[k] as char && mem[k] != 0 {
        if k > 0 { assert s[k] == rest[k - 1] && mem[k] == mem[1..][k - 1]; }
      }
    }
  }

  /** There is only one such name. */
  lemma OneNameAt(s: string, t: string, mem: seq<byte>, limit: nat)
    requires IsNameAt(s, mem, limit) && IsNameAt(t, mem, limit)
    ensures s == t
  {
    assert |s| == |t|;
  }

  lemma {:induction false} CopyNameEnds(p: seq<byte>, rest: seq<byte>, limit: nat)
    requires 0 in p || |p| >= limit
    ensures CopyName(p + rest, limit) == CopyName(p, limit)
  {
    if p != [] && p[0] != 0 && limit > 0 {
      assert (p + rest)[1..] == p[1..] + rest;
      CopyNameEnds(p[1..], rest, limit - 1);
    }
  }

  lemma {:induction false} CopyNameGoesOn(mem: seq<byte>, limit: nat)
    requires 0 !in mem && |mem| < limit
    ensures |CopyName(mem, limit)| == |mem| && |CopyName(mem + [1], limit)| == |mem| + 1
  {
    if mem == [] {
      assert ([] + [1])[1..] == [];
    } else {
      assert mem[0] in mem && forall c :: c in mem[1..] ==> c in mem;
      assert (mem + [1])[1..] == mem[1..] + [1];
      CopyNameGoesOn(mem[1..], limit - 1);
    }
  }

  /** Does `strncpy` look at byte `k`? It does when no NUL in `mem` comes before it. */
  ghost predicate LooksAt(mem: seq<byte>, limit: nat, k: nat) {
    k < limit && forall p :: 0 <= p < k && p < |mem| ==> mem[p] != 0
  }

  /** Let `mem` be what the buffer holds from the name on. The copy looks at no byte behind the buffer, and does not
      depend on any, exactly when the rest of the buffer has a NUL or is as long as the copy may get. */
  lemma CopyStaysInside(mem: seq<byte>, limit: nat)
    ensures (forall k: nat :: LooksAt(mem, limit, k) ==> k < |mem|) <==> 0 in mem || limit <= |mem|
    ensures (forall beyond: seq<byte> :: CopyName(mem + beyond, limit) == CopyName(mem, limit))
            <==> 0 in mem || limit <= |mem|
  {
    if 0 in mem || limit <= |mem| {
      forall beyond: seq<byte> ensures CopyName(mem + beyond, limit) == CopyName(mem, limit) {
        CopyNameEnds(mem, beyond, limit);
      }
      if 0 in mem {
        var z :| 0 <= z < |mem| && mem[z] == 0;
        assert forall k: nat :: LooksAt(mem, limit, k) ==> k <= z;
      }
    } else {
      assert forall p :: 0 <= p < |mem| ==> mem[p] in mem;
      assert LooksAt(mem, limit, |mem|);
      CopyNameGoesOn(mem, limit);
    }
  }

  // ---------------------------------------------------------------- what a buffer means

  /** RTA_OK: `mem` is memory from the attribute on, `rtalen` the bytes its message still has (it may be negative). */
  predicate RtaOk(mem: seq<byte>, rtalen: int)
    requires rtalen <= |mem|
  {
    rtalen >= 4 && 4 <= U16At(mem, 0) <= rtalen
  }

  /** The name in the first IFLA_IFNAME attribute. */
  function FirstName(mem: seq<byte>, rtalen: int): (name: Option<string>)
    requires rtalen <= |mem|
    ensures name.Some? ==> rtalen >= 4 && |name.value| < IFNAMSIZ && forall c :: c in name.value ==> c != '\0'
    decreases |mem|
  {
    if !RtaOk(mem, rtalen) then None
    else if U16At(mem, 2) == IFLA_IFNAME then Some(CopyName(mem[4..], IFNAMSIZ - 1))
    else
      var step := Align4(U16At(mem, 0));
      if step <= rtalen then FirstName(mem[step..], rtalen - step) else None
  }

  /** NLMSG_OK: `rcv` is what was received from this message on. */
  predicate NlmsgOk(rcv: seq<byte>) {
    |rcv| >= 16 && 16 <= U32At(rcv, 0) <= |rcv|
  }

  /** What one RTM_NEWLINK message adds. `tail` is the rest of the buffer, past the received bytes. */
  function AddLink(rcv: seq<byte>, tail: seq<byte>, acc: NameMap): NameMap
    requires NlmsgOk(rcv)
  {
    var len := U32At(rcv, 0);
    var name := if 32 <= len then FirstName(rcv[32..] + tail, len - 32) else None;
    if name.Some? && !IsVirtualInterface(name.value) then acc[Signed32(U32At(rcv, 20)) := name.value] else acc
  }

  function Links(rcv: seq<byte>, tail: seq<byte>, acc: NameMap): NameMap
    decreases |rcv|
  {
    if !NlmsgOk(rcv) || U16At(rcv, 4) == NLMSG_DONE then acc
    else
      var acc' := if U16At(rcv, 4) == RTM_NEWLINK then AddLink(rcv, tail, acc) else acc;
      var step := Align4(U32At(rcv, 0));
      if step <= |rcv| then Links(rcv[step..], tail, acc') else acc'
  }

  /** No virtual interface, and every name fits the kernel's limit. */
  ghost predicate NamesOk(m: NameMap) {
    forall k :: k in m ==> !IsVirtualInterface(m[k]) && |m[k]| < IFNAMSIZ && forall c :: c in m[k] ==> c != '\0'
  }

  lemma {:induction false} LinksNamesOk(rcv: seq<byte>, tail: seq<byte>, acc: NameMap)
    requires NamesOk(acc)
    ensures NamesOk(Links(rcv, tail, acc))
    decreases |rcv|
  {
    if NlmsgOk(rcv) && U16At(rcv, 4) != NLMSG_DONE {
      var acc' := if U16At(rcv, 4) == RTM_NEWLINK then AddLink(rcv, tail, acc) else acc;
      var step := Align4(U32At(rcv, 0));
      if step <= |rcv| {
        LinksNamesOk(rcv[step..], tail, acc');
      }
    }
  }

  // ---------------------------------------------------------------- a name behind the buffer

  /** A full buffer with one link message: an attribute of another kind fills it up to the header of a name
      attribute that ends where the buffer ends. */
  function FullBuffer(): (b: seq<byte>)
    ensures |b| == BUFFER_SIZE
  {
    seq(BUFFER_SIZE, i requires 0 <= i < BUFFER_SIZE => FullBufferAt(i))
  }

  function FullBufferAt(i: nat): byte {
    match i
    case 1 => BUFFER_SIZE / 0x100
    case 4 => 16
    case 32 => 4060 % 0x100
    case 33 => 4060 / 0x100
    case 4092 => 4
    case 4094 => 3
    case _ => 0
  }

  /** The concrete failing case: the parser accepts this message, reaches its last attribute and takes for the name
      whatever lies behind the buffer. */
  lemma NameBehindBuffer(beyond: seq<byte>)
    ensures var b := FullBuffer();
            && NlmsgOk(b) && U32At(b, 0) == BUFFER_SIZE && U16At(b, 4) == RTM_NEWLINK
            && FirstName(b[32..] + beyond, BUFFER_SIZE - 32) == Some(CopyName(beyond, IFNAMSIZ - 1))
            && !(0 in b[BUFFER_SIZE..] || IFNAMSIZ - 1 <= |b[BUFFER_SIZE..]|)
  {
    var b := FullBuffer();
    assert U32At(b, 0) == BUFFER_SIZE && U16At(b, 4) == RTM_NEWLINK;
    var mem := b[32..] + beyond;
    assert U16At(mem, 0) == 4060 && U16At(mem, 2) == 0;
    var last := mem[4060..];
    assert U16At(last, 0) == 4 && U16At(last, 2) == IFLA_IFNAME && last[4..] == beyond;
    hide FullBuffer, U16At;
    assert Align4(4060) == 4060 && Align4(4) == 4;
    ScanStep(mem, 4064, 4060, 0, mem[4..], last);
    ScanStep(last, 4, 4, IFLA_IFNAME, beyond, last[4..]);
  }

  // ---------------------------------------------------------------- the parser

  function From(b: seq<byte>, i: nat): (rest: seq<byte>)
    ensures |rest| == if i <= |b| then |b| - i else 0
  {
    if i <= |b| then b[i..] else []
  }

  /** Header words may only be read inside the received bytes. */
  function ReadU16(buf: array<byte>, received: nat, i: nat): nat
    requires i + 2 <= received <= buf.Length
    reads buf
  {
    Le16(buf[i], buf[i + 1])
  }

  function ReadU32(buf: array<byte>, received: nat, i: nat): nat
    requires i + 4 <= received <= buf.Length
    reads buf
  {
    Le32(buf[i], buf[i + 1], buf[i + 2], buf[i + 3])
  }

  method Strncpy(buf: array<byte>, start: nat, limit: nat) returns (s: string)
    requires start <= buf.Length
    ensures s == CopyName(buf[start..], limit) && IsNameAt(s, buf[start..], limit)
    ensures 0 in buf[start..] || limit <= buf.Length - start ==>
              forall beyond: seq<byte> :: s == CopyName(buf[start..] + beyond, limit)
  {
    var i := 0;
    s := [];
    while i < limit && start + i < buf.Length && buf[start + i] != 0
      invariant i <= limit && start + i <= buf.Length
      invariant s + CopyName(buf[start + i..], limit - i) == CopyName(buf[start..], limit)
    {
      assert buf[start + i..][1..] == buf[start + i + 1..];
      s := s + [buf[start + i] as char];
      i := i + 1;
    }
    CopyStaysInside(buf[start..], limit);
    CopyNameExactly(buf[start..], limit);
  }

  /** The attribute loop of one message that ends at `end`. */
  method FindIfName(buf: array<byte>, received: nat, rta0: nat, rtalen0: int) returns (name: Option<string>)
    requires received <= buf.Length && rta0 + rtalen0 <= received
    ensures name == FirstName(From(buf[..], rta0), rtalen0)
  {
    hide FirstName, Le16, From;
    var rta, rtalen := rta0, rtalen0;
    ghost var all, target := buf[..], FirstName(From(buf[..], rta0), rtalen0);
    while rtalen >= 4 && 4 <= ReadU16(buf, received, rta) <= rtalen
      invariant rta + rtalen == rta0 + rtalen0
      invariant FirstName(From(all, rta), rtalen) == target
      decreases rtalen
    {
      AttributeAt(buf, received, rta, rtalen);
      if ReadU16(buf, received, rta + 2) == IFLA_IFNAME {
        var s := Strncpy(buf, rta + 4, IFNAMSIZ - 1);
        return Some(s);
      }
      var step := Align4(ReadU16(buf, received, rta));
      rtalen := rtalen - step;
      rta := rta + step;
    }
    if rtalen >= 4 {
      AttributeAt(buf, received, rta, rtalen);
    }
    name := None;
  }

  /** One unfolding of `FirstName`, in terms of the words the loop reads. */
  lemma AttributeAt(buf: array<byte>, received: nat, rta: nat, rtalen: int)
    requires rta + rtalen <= received <= buf.Length && rtalen >= 4
    ensures var len, mem := ReadU16(buf, received, rta), From(buf[..], rta);
            FirstName(mem, rtalen) ==
            if !(4 <= len <= rtalen) then None
            else if ReadU16(buf, received, rta + 2) == IFLA_IFNAME then Some(CopyName(buf[rta + 4..], IFNAMSIZ - 1))
            else FirstName(From(buf[..], rta + Align4(len)), rtalen - Align4(len))
  {
    hide FirstName, Le16, CopyName, From, Align4;
    var len, mem := ReadU16(buf, received, rta), From(buf[..], rta);
    FromIs(buf[..], rta);
    assert mem == buf[rta..] && mem[0] == buf[rta] && mem[1] == buf[rta + 1];
    assert mem[2] == buf[rta + 2] && mem[3] == buf[rta + 3];
    assert mem[4..] == buf[rta + 4..];
    if 4 <= len <= rtalen {
      FromFrom(buf[..], rta, Align4(len));
      ScanStep(mem, rtalen, len, ReadU16(buf, received, rta + 2), buf[rta + 4..], From(buf[..], rta + Align4(len)));
    } else {
      ScanEnd(mem, rtalen);
    }
  }

  lemma FromIs(b: seq<byte>, i: nat)
    requires i <= |b|
    ensures From(b, i) == b[i..]
  {
  }

  lemma FromFrom(b: seq<byte>, i: nat, d: nat)
    requires i <= |b|
    ensures From(From(b, i), d) == From(b, i + d)
  {
  }

  lemma ScanEnd(mem: seq<byte>, rtalen: int)
    requires 4 <= rtalen <= |mem| && !(4 <= U16At(mem, 0) <= rtalen)
    ensures FirstName(mem, rtalen) == None
  {
  }

  /** One unfolding of `FirstName` at an attribute that is accepted. */
  lemma ScanStep(mem: seq<byte>, rtalen: int, len: nat, kind: nat, payloadOn: seq<byte>, after: seq<byte>)
    requires 4 <= len <= rtalen <= |mem|
    requires U16At(mem, 0) == len && U16At(mem, 2) == kind && mem[4..] == payloadOn && From(mem, Align4(len)) == after
    ensures FirstName(mem, rtalen) ==
            if kind == IFLA_IFNAME then Some(CopyName(payloadOn, IFNAMSIZ - 1))
            else FirstName(after, rtalen - Align4(len))
  {
    hide U16At, CopyName;
  }

  /** `AddLink` for the message at `nlh`, in terms of the whole buffer. */
  lemma LinkAt(b: seq<byte>, received: nat, nlh: nat, before: NameMap)
    requires nlh + 16 <= received <= |b| && NlmsgOk(b[nlh..received])
    ensures var len := U32At(b, nlh);
            && nlh + len <= received
            && var name := FirstName(From(b, nlh + 32), len as int - 32);
               AddLink(b[nlh..received], b[received..], before) ==
               if name.Some? && !IsVirtualInterface(name.value)
               then before[Signed32(U32At(b, nlh + 20)) := name.value] else before
  {
    hide FirstName, IsVirtualInterface, Le32, Signed32, From;
    var cur, tail, len: int := b[nlh..received], b[received..], U32At(b, nlh);
    assert U32At(cur, 0) == len;
    hide NlmsgOk;
    if 32 <= len {
      FromIs(b, nlh + 32);
      assert b[nlh + 32..] == cur[32..] + tail;
      assert U32At(cur, 20) == U32At(b, nlh + 20);
      hide U32At;
    } else {
      TooShort(From(b, nlh + 32), len - 32);
    }
  }

  lemma TooShort(mem: seq<byte>, rtalen: int)
    requires rtalen < 4 && rtalen <= |mem|
    ensures FirstName(mem, rtalen) == None
  {
  }

  /** The handling of one RTM_NEWLINK message. */
  method ParseLink(buf: array<byte>, received: nat, nlh: nat, before: NameMap) returns (m: NameMap)
    requires nlh + 16 <= received <= buf.Length && NlmsgOk(buf[nlh..received])
    ensures m == AddLink(buf[nlh..received], buf[received..], before)
  {
    hide FirstName, IsVirtualInterface, Le32, Signed32, AddLink, NlmsgOk, From;
    m := before;
    LinkAt(buf[..], received, nlh, before);
    assert buf[..][nlh..received] == buf[nlh..received] && buf[..][received..] == buf[received..];
    var msgLen: int := ReadU32(buf, received, nlh);
    var name := FindIfName(buf, received, nlh + 32, msgLen - 32);
    if name.Some? && !IsVirtualInterface(name.value) {
      m := m[Signed32(ReadU32(buf, received, nlh + 20)) := name.value];
    }
  }

  /** One unfolding of `Links`, in terms of the words the loop reads. */
  lemma MessageAt(buf: array<byte>, received: nat, nlh: nat, acc: NameMap)
    requires nlh + 16 <= received <= buf.Length
    ensures var len, tail, cur := ReadU32(buf, received, nlh), buf[received..], buf[nlh..received];
            && (NlmsgOk(cur) <==> 16 <= len <= received - nlh)
            && (!NlmsgOk(cur) || ReadU16(buf, received, nlh + 4) == NLMSG_DONE ==> Links(cur, tail, acc) == acc)
            && (NlmsgOk(cur) && ReadU16(buf, received, nlh + 4) != NLMSG_DONE ==>
                  Links(cur, tail, acc) ==
                  Links(From(buf[..received], nlh + Align4(len)), tail,
                        if ReadU16(buf, received, nlh + 4) == RTM_NEWLINK then AddLink(cur, tail, acc) else acc))
  {
    var len, cur := ReadU32(buf, received, nlh), buf[nlh..received];
    assert U32At(cur, 0) == len && U16At(cur, 4) == ReadU16(buf, received, nlh + 4);
    if Align4(len) <= |cur| {
      assert cur[Align4(len)..] == From(buf[..received], nlh + Align4(len));
    }
  }

  /** The message loop. `received` is what `recv` returned. Every header word it reads lies inside the received
      bytes (the preconditions of `ReadU16` and `ReadU32`), and it ends on every buffer. */
  method GetNetworkInterfaces(buf: array<byte>, received: int) returns (m: NameMap)
    requires buf.Length == BUFFER_SIZE && received <= buf.Length
    ensures m == if received > 0 then Links(buf[..received], buf[received..], map[]) else map[]
    ensures NamesOk(m)
  {
    m := map[];
    if received > 0 {
      m := ParseMessages(buf, received);
      LinksNamesOk(buf[..received], buf[received..], map[]);
    }
  }

  method ParseMessages(buf: array<byte>, received: nat) returns (m: NameMap)
    requires received <= buf.Length
    ensures m == Links(buf[..received], buf[received..], map[])
  {
    hide Links, AddLink, NlmsgOk;
    m := map[];
    ghost var target := Links(buf[..received], buf[received..], map[]);
    assert From(buf[..received], 0) == buf[..received];
    var nlh, len: int := 0, received;
    while len >= 16 && 16 <= ReadU32(buf, received, nlh) <= len
      invariant 0 <= nlh && nlh + len == received
      invariant Links(From(buf[..received], nlh), buf[received..], m) == target
      decreases len
    {
      assert From(buf[..received], nlh) == buf[nlh..received];
      MessageAt(buf, received, nlh, m);
      if ReadU16(buf, received, nlh + 4) == NLMSG_DONE {
        return;
      }
      if ReadU16(buf, received, nlh + 4) == RTM_NEWLINK {
        m := ParseLink(buf, received, nlh, m);
      }
      var step := Align4(ReadU32(buf, received, nlh));
      len := len - step;
      nlh := nlh + step;
    }
    if len >= 16 {
      assert From(buf[..received], nlh) == buf[nlh..received];
      MessageAt(buf, received, nlh, m);
    } else {
      NoMessage(From(buf[..received], nlh), buf[received..], m);
    }
  }

  lemma NoMessage(rcv: seq<byte>, tail: seq<byte>, acc: NameMap)
    requires |rcv| < 16
    ensures Links(rcv, tail, acc) == acc
  {
  }
}
