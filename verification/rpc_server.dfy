/** The hub: the latest message of every client, by name. Each handler runs under the server's mutex. */
module RpcServer {
  import opened Proto

  type Infos = map<string, MonitorInfo>

  ghost predicate KeyedByName(m: Infos) {
    forall n :: n in m ==> m[n].name == n
  }

  /** `response` lists the whole map, every name once, in some order. */
  ghost predicate Lists(response: seq<MonitorInfo>, m: Infos) {
    && |response| == |m|
    && (forall i :: 0 <= i < |response| ==> response[i].name in m && response[i] == m[response[i].name])
    && (forall i, j :: 0 <= i < j < |response| ==> response[i].name != response[j].name)
  }

  class RpcServerImpl {
    var monitorInfos: Infos

    ghost predicate Valid()
      reads this
    {
      KeyedByName(monitorInfos)
    }

    constructor ()
      ensures Valid() && monitorInfos == map[]
    {
      monitorInfos := map[];
    }

    method SetMonitorInfo(request: MonitorInfo)
      requires Valid()
      modifies this
      ensures Valid() && monitorInfos == old(monitorInfos)[request.name := request]
    {
      monitorInfos := monitorInfos[request.name := request];
    }

    method GetMonitorInfo() returns (response: seq<MonitorInfo>)
      requires Valid()
      ensures Lists(response, monitorInfos)
    {
      response := [];
      var todo := monitorInfos.Keys;
      while todo != {}
        invariant todo <= monitorInfos.Keys && |response| + |todo| == |monitorInfos|
        invariant forall i :: 0 <= i < |response| ==>
                    && response[i].name in monitorInfos && response[i].name !in todo
                    && response[i] == monitorInfos[response[i].name]
        invariant forall i, j :: 0 <= i < j < |response| ==> response[i].name != response[j].name
        decreases todo
      {
        var n :| n in todo;
        response := response + [monitorInfos[n]];
        todo := todo - {n};
      }
    }
  }

  /** A listing leaves no name of the map out. */
  lemma ListsEveryName(response: seq<MonitorInfo>, m: Infos, n: string)
    requires Lists(response, m) && n in m
    ensures exists i :: 0 <= i < |response| && response[i] == m[n] && response[i].name == n
  {
    var names := set i | 0 <= i < |response| :: response[i].name;
    NamesAreDistinct(response);
    assert names <= m.Keys && |names| == |m.Keys|;
    SubsetOfSameSize(names, m.Keys);
    assert n in names;
  }

  lemma {:induction false} NamesAreDistinct(response: seq<MonitorInfo>)
    requires forall i, j :: 0 <= i < j < |response| ==> response[i].name != response[j].name
    ensures |set i | 0 <= i < |response| :: response[i].name| == |response|
  {
    if response != [] {
      var n := |response| - 1;
      var before := response[..n];
      NamesAreDistinct(before);
      var names := set i | 0 <= i < |before| :: before[i].name;
      assert (set i | 0 <= i < |response| :: response[i].name) == names + {response[n].name};
      assert response[n].name !in names;
    }
  }

  lemma SubsetOfSameSize(a: set<string>, b: set<string>)
    requires a <= b && |a| == |b|
    ensures a == b
  {
    assert b == a + (b - a);
    assert |b - a| == 0;
  }
}
