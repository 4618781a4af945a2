/** Interface names. */
module Interfaces {

  predicate StartsWith(s: string, prefix: string) {
    |prefix| <= |s| && s[..|prefix|] == prefix
  }

  predicate IsVirtualInterface(ifname: string) {
    || ifname == "lo"
    || StartsWith(ifname, "veth")
    || StartsWith(ifname, "docker")
    || StartsWith(ifname, "br")
    || StartsWith(ifname, "virbr")
    || StartsWith(ifname, "tun")
    || StartsWith(ifname, "tap")
  }

  /** The name is `lo`, or one of six prefixes and anything more. */
  ghost predicate VirtualByPrefix(ifname: string) {
    ifname == "lo" || exists rest: string ::
      || ifname == "veth" + rest || ifname == "docker" + rest || ifname == "br" + rest
      || ifname == "virbr" + rest || ifname == "tun" + rest || ifname == "tap" + rest
  }

  lemma PrefixAndRest(s: string, prefix: string)
    ensures StartsWith(s, prefix) <==> exists rest: string :: s == prefix + rest
  {
    if StartsWith(s, prefix) {
      assert s == prefix + s[|prefix|..];
    }
  }

  lemma VirtualExactly(ifname: string)
    ensures IsVirtualInterface(ifname) <==> VirtualByPrefix(ifname)
  {
    hide StartsWith;
    PrefixAndRest(ifname, "veth");
    PrefixAndRest(ifname, "docker");
    PrefixAndRest(ifname, "br");
    PrefixAndRest(ifname, "virbr");
    PrefixAndRest(ifname, "tun");
    PrefixAndRest(ifname, "tap");
  }
}
