/** What any received bytes mean, well-formed or not: the offsets that the two loops visit, in terms of the bytes
    themselves. */
module NetlinkFormat {
  import opened Words
  import opened Interfaces
  import opened Netlink

  function Half(b: seq<byte>, i: nat): nat
    requires i + 2 <= |b|
  {
    b[i] as int + 256 * b[i + 1] as int
  }

  function Word(b: seq<byte>, i: nat): nat
    requires i + 4 <= |b|
  {
    b[i] as int + 256 * b[i + 1] as int + 65536 * b[i + 2] as int + 16777216 * b[i + 3] as int
  }

  function Int(b: seq<byte>, i: nat): int
    requires i + 4 <= |b|
  {
    Word(b, i) - if b[i + 3] >= 128 then 4294967296 else 0
  }

  function UpTo4(n: nat): nat {
    (n + 3) / 4 * 4
  }

  lemma UpTo4IsAlign4(n: nat)
    ensures UpTo4(n) == Align4(n)
  {
  }

  lemma SameWords(b: seq<byte>, i: nat)
    ensures i + 2 <= |b| ==> U16At(b, i) == Half(b, i)
    ensures i + 4 <= |b| ==> U32At(b, i) == Word(b, i) && Signed32(U32At(b, i)) == Int(b, i)
  {
  }

  // ---------------------------------------------------------------- attributes

  /** Is there an attribute at `off`, of the `n` bytes that the message has for attributes? */
  predicate AttrAt(mem: seq<byte>, n: int, off: nat)
    requires n <= |mem|
  {
    off + 4 <= n && 4 <= Half(mem, off) <= n - off
  }

  /** `offs` goes from attribute to attribute, none of them a name, and ends at a name or where there is none. */
  ghost predicate AttrChain(mem: seq<byte>, n: int, offs: seq<nat>)
    requires n <= |mem|
  {
    && offs != [] && offs[0] == 0
    && (forall k :: 0 <= k < |offs| - 1 ==>
          && AttrAt(mem, n, offs[k]) && Half(mem, offs[k] + 2) != 3
          && offs[k + 1] == offs[k] + UpTo4(Half(mem, offs[k])))
    && var last := offs[|offs| - 1];
       AttrAt(mem, n, last) ==> Half(mem, last + 2) == 3
  }

  lemma AttrHere(mem: seq<byte>, n: int)
    requires n <= |mem|
    ensures RtaOk(mem, n) <==> AttrAt(mem, n, 0)
    ensures RtaOk(mem, n) ==> U16At(mem, 2) == Half(mem, 2) && Align4(U16At(mem, 0)) == UpTo4(Half(mem, 0))
  {
    if n >= 4 {
      SameWords(mem, 0);
      SameWords(mem, 2);
      UpTo4IsAlign4(Half(mem, 0));
    }
  }

  lemma AttrShift(mem: seq<byte>, n: int, step: nat, off: nat)
    requires n <= |mem| && step <= n
    ensures AttrAt(mem[step..], n - step, off) <==> AttrAt(mem, n, step + off)
    ensures AttrAt(mem, n, step + off) ==>
              Half(mem[step..], off) == Half(mem, step + off) && Half(mem[step..], off + 2) == Half(mem, step + off + 2)
  {
  }

  function Shifted(offs: seq<nat>, step: nat): seq<nat> {
    seq(|offs|, k requires 0 <= k < |offs| => offs[k] + step)
  }

  lemma ChainShift(mem: seq<byte>, n: int, step: nat, offs: seq<nat>)
    requires n <= |mem| && step <= n && AttrAt(mem, n, 0) && Half(mem, 2) != 3 && step == UpTo4(Half(mem, 0))
    requires AttrChain(mem[step..], n - step, offs)
    ensures AttrChain(mem, n, [0] + Shifted(offs, step))
  {
    hide Half, UpTo4;
    var all := [0] + Shifted(offs, step);
    forall k | 0 <= k < |all| - 1
      ensures AttrAt(mem, n, all[k]) && Half(mem, all[k] + 2) != 3 && all[k + 1] == all[k] + UpTo4(Half(mem, all[k]))
    {
      if k > 0 {
        AttrShift(mem, n, step, offs[k - 1]);
        assert all[k] == offs[k - 1] + step && all[k + 1] == offs[k] + step;
      }
    }
    AttrShift(mem, n, step, offs[|offs| - 1]);
    assert all[|all| - 1] == offs[|offs| - 1] + step;
  }

  /** One step of the scan. */
  lemma ScanHere(mem: seq<byte>, n: int)
    requires n <= |mem|
    ensures FirstName(mem, n) ==
            if !AttrAt(mem, n, 0) then None
            else if Half(mem, 2) == 3 then Some(CopyName(mem[4..], 15))
            else
              var step := UpTo4(Half(mem, 0));
              if step <= n then FirstName(mem[step..], n - step) else None
  {
    AttrHere(mem, n);
    hide U16At, Half, UpTo4, Align4, CopyName, AttrAt;
  }

  /** What a scan that ends at `last` has found. */
  ghost predicate Found(mem: seq<byte>, n: int, last: nat)
    requires n <= |mem|
  {
    if AttrAt(mem, n, last)
    then FirstName(mem, n).Some? && IsNameAt(FirstName(mem, n).value, mem[last + 4..], 15)
    else FirstName(mem, n) == None
  }

  lemma FoundLater(mem: seq<byte>, n: int, step: nat, last: nat)
    requires n <= |mem| && step <= n && Found(mem[step..], n - step, last)
    requires FirstName(mem, n) == FirstName(mem[step..], n - step)
    ensures Found(mem, n, last + step)
  {
    AttrShift(mem, n, step, last);
    hide FirstName, IsNameAt;
    if AttrAt(mem, n, last + step) {
      assert mem[step..][last + 4..] == mem[last + step + 4..];
    }
  }

  lemma ScanEndsHere(mem: seq<byte>, n: int)
    requires n <= |mem| && (AttrAt(mem, n, 0) ==> Half(mem, 2) == 3)
    ensures AttrChain(mem, n, [0]) && Found(mem, n, 0)
  {
    ScanHere(mem, n);
    if AttrAt(mem, n, 0) {
      CopyNameExactly(mem[4..], 15);
    }
    hide FirstName, Half, CopyName, IsNameAt;
  }

  lemma ScanJumpsOut(mem: seq<byte>, n: int, step: nat)
    requires n <= |mem| && AttrAt(mem, n, 0) && Half(mem, 2) != 3 && step == UpTo4(Half(mem, 0)) && step > n
    ensures AttrChain(mem, n, [0, step]) && Found(mem, n, step)
  {
    ScanHere(mem, n);
    hide FirstName, Half, UpTo4;
  }

  lemma ScanGoesOn(mem: seq<byte>, n: int, step: nat, rest: seq<nat>)
    requires n <= |mem| && AttrAt(mem, n, 0) && Half(mem, 2) != 3 && step == UpTo4(Half(mem, 0)) && step <= n
    requires AttrChain(mem[step..], n - step, rest) && Found(mem[step..], n - step, rest[|rest| - 1])
    ensures AttrChain(mem, n, [0] + Shifted(rest, step)) && Found(mem, n, rest[|rest| - 1] + step)
  {
    ScanHere(mem, n);
    ChainShift(mem, n, step, rest);
    FoundLater(mem, n, step, rest[|rest| - 1]);
    hide AttrChain, Found, FirstName, Half, UpTo4, AttrAt;
  }

  /** For any bytes, however malformed: the scan follows the attributes to the first name and takes it, or to where
      there is no attribute any more and takes none. */
  lemma {:induction false} ScanFollowsAttributes(mem: seq<byte>, n: int) returns (offs: seq<nat>)
    requires n <= |mem|
    ensures AttrChain(mem, n, offs) && Found(mem, n, offs[|offs| - 1])
    decreases |mem|
  {
    hide Found, FirstName, Half, UpTo4;
    if AttrAt(mem, n, 0) && Half(mem, 2) != 3 {
      var step := UpTo4(Half(mem, 0));
      StepIsFour(Half(mem, 0));
      if step <= n {
        var rest := ScanFollowsAttributes(mem[step..], n - step);
        ScanGoesOn(mem, n, step, rest);
        offs := [0] + Shifted(rest, step);
        assert offs[|offs| - 1] == rest[|rest| - 1] + step;
      } else {
        offs := [0, step];
        ScanJumpsOut(mem, n, step);
      }
    } else {
      offs := [0];
      ScanEndsHere(mem, n);
    }
  }

  lemma StepIsFour(n: nat)
    requires n >= 4
    ensures UpTo4(n) >= 4
  {
  }

  // ---------------------------------------------------------------- messages

  predicate MessageAt(rcv: seq<byte>, off: nat) {
    off + 16 <= |rcv| && 16 <= Word(rcv, off) <= |rcv| - off
  }

  /** `offs` goes from message to message, none of them the end of the dump, and ends at that end or where there is no
      message. */
  ghost predicate MessageChain(rcv: seq<byte>, offs: seq<nat>) {
    && offs != [] && offs[0] == 0
    && (forall k :: 0 <= k < |offs| - 1 ==>
          && MessageAt(rcv, offs[k]) && Half(rcv, offs[k] + 4) != 3
          && offs[k + 1] == offs[k] + UpTo4(Word(rcv, offs[k])))
    && var last := offs[|offs| - 1];
       MessageAt(rcv, last) ==> Half(rcv, last + 4) == 3
  }

  /** What the message at `off` adds to the map: a link's index and first name, unless the name is virtual. */
  ghost function Adds(rcv: seq<byte>, tail: seq<byte>, off: nat, acc: NameMap): NameMap
    requires MessageAt(rcv, off)
  {
    if Half(rcv, off + 4) != 16 || Word(rcv, off) < 32 then acc
    else
      var name := FirstName(rcv[off + 32..] + tail, Word(rcv, off) - 32);
      if name.Some? && !VirtualByPrefix(name.value) then acc[Int(rcv, off + 20) := name.value] else acc
  }

  /** The messages at all offsets but the last, in order. */
  ghost function AddsAll(rcv: seq<byte>, tail: seq<byte>, offs: seq<nat>, acc: NameMap): NameMap
    requires forall k :: 0 <= k < |offs| - 1 ==> MessageAt(rcv, offs[k])
    decreases |offs|
  {
    if |offs| <= 1 then acc else AddsAll(rcv, tail, offs[1..], Adds(rcv, tail, offs[0], acc))
  }

  lemma MessageHere(rcv: seq<byte>, tail: seq<byte>, acc: NameMap)
    ensures NlmsgOk(rcv) <==> MessageAt(rcv, 0)
    ensures NlmsgOk(rcv) ==>
              && U16At(rcv, 4) == Half(rcv, 4) && Align4(U32At(rcv, 0)) == UpTo4(Word(rcv, 0))
              && (if U16At(rcv, 4) == RTM_NEWLINK then AddLink(rcv, tail, acc) else acc) == Adds(rcv, tail, 0, acc)
  {
    hide FirstName, IsVirtualInterface, VirtualByPrefix;
    if |rcv| >= 16 {
      SameWords(rcv, 0);
      SameWords(rcv, 4);
      UpTo4IsAlign4(Word(rcv, 0));
      if NlmsgOk(rcv) && Word(rcv, 0) >= 32 {
        SameWords(rcv, 20);
        var name := FirstName(rcv[32..] + tail, Word(rcv, 0) - 32);
        if name.Some? { VirtualExactly(name.value); }
      }
    }
  }

  lemma MessageShift(rcv: seq<byte>, tail: seq<byte>, step: nat, off: nat, acc: NameMap)
    requires step <= |rcv|
    ensures MessageAt(rcv[step..], off) <==> MessageAt(rcv, step + off)
    ensures MessageAt(rcv, step + off) ==>
              && Word(rcv[step..], off) == Word(rcv, step + off)
              && Half(rcv[step..], off + 4) == Half(rcv, step + off + 4)
              && Adds(rcv[step..], tail, off, acc) == Adds(rcv, tail, step + off, acc)
  {
    hide FirstName, VirtualByPrefix;
    if MessageAt(rcv, step + off) && Word(rcv, step + off) >= 32 {
      assert rcv[step..][off + 32..] == rcv[step + off + 32..];
    }
  }

  lemma MessageChainShift(rcv: seq<byte>, step: nat, offs: seq<nat>)
    requires step <= |rcv| && MessageAt(rcv, 0) && Half(rcv, 4) != 3 && step == UpTo4(Word(rcv, 0))
    requires MessageChain(rcv[step..], offs)
    ensures MessageChain(rcv, [0] + Shifted(offs, step))
  {
    hide Half, Word, UpTo4, Adds;
    var all := [0] + Shifted(offs, step);
    forall k | 0 <= k < |all| - 1
      ensures MessageAt(rcv, all[k]) && Half(rcv, all[k] + 4) != 3 && all[k + 1] == all[k] + UpTo4(Word(rcv, all[k]))
    {
      if k > 0 {
        MessageShift(rcv, [], step, offs[k - 1], map[]);
        assert all[k] == offs[k - 1] + step && all[k + 1] == offs[k] + step;
      }
    }
    MessageShift(rcv, [], step, offs[|offs| - 1], map[]);
    assert all[|all| - 1] == offs[|offs| - 1] + step;
  }

  lemma {:induction false} AddsAllShift(rcv: seq<byte>, tail: seq<byte>, step: nat, offs: seq<nat>, acc: NameMap)
    requires step <= |rcv| && forall k :: 0 <= k < |offs| - 1 ==> MessageAt(rcv[step..], offs[k])
    ensures var all := Shifted(offs, step);
            && (forall k :: 0 <= k < |all| - 1 ==> MessageAt(rcv, all[k]))
            && AddsAll(rcv[step..], tail, offs, acc) == AddsAll(rcv, tail, all, acc)
    decreases |offs|
  {
    hide MessageAt, Adds;
    var all := Shifted(offs, step);
    forall k | 0 <= k < |all| - 1 ensures MessageAt(rcv, all[k]) {
      MessageShift(rcv, tail, step, offs[k], acc);
    }
    if |offs| > 1 {
      MessageShift(rcv, tail, step, offs[0], acc);
      assert all[1..] == Shifted(offs[1..], step);
      AddsAllShift(rcv, tail, step, offs[1..], Adds(rcv[step..], tail, offs[0], acc));
    }
  }

  /** For any bytes, however malformed: the parser follows the messages to the end of the dump or to where there is no
      message, and its map is what the links among them add in turn. */
  lemma {:induction false} ParserFollowsMessages(rcv: seq<byte>, tail: seq<byte>, acc: NameMap) returns (offs: seq<nat>)
    ensures MessageChain(rcv, offs) && Links(rcv, tail, acc) == AddsAll(rcv, tail, offs, acc)
    decreases |rcv|
  {
    hide FirstName, AddLink, Adds, NlmsgOk;
    MessageHere(rcv, tail, acc);
    offs := [0];
    if NlmsgOk(rcv) && U16At(rcv, 4) != NLMSG_DONE {
      var step := Align4(U32At(rcv, 0));
      var acc' := Adds(rcv, tail, 0, acc);
      if step <= |rcv| {
        var rest := ParserFollowsMessages(rcv[step..], tail, acc');
        MessageChainShift(rcv, step, rest);
        AddsAllShift(rcv, tail, step, rest, acc');
        offs := [0] + Shifted(rest, step);
        assert offs[1..] == Shifted(rest, step);
      } else {
        offs := [0, step];
        assert offs[1..] == [step];
      }
    }
  }
}
