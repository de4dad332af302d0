/**
 The agent and the collector together: what one agent cycle, once its two
 posts reach `report_status`, does to the audit table and its score.
 */
module Pipeline {
  import opened Models
  import Server
  import Agent

  /** Every report the agent posts carries the four keys the collector reads. */
  lemma ReportAccepted(r: Agent.Report, s: Server.Store, now: DateTime)
    ensures Server.HasRequiredKeys(r.ToJson())
    ensures var res := Server.Ingest(s, r.ToJson(), now);
      && res.response == Server.ReportReceived
      && |res.store.entries| == |s.entries| + 1
      && var e := res.store.entries[|s.entries|];
         && e.hostname == r.hostname && e.controlId == r.controlId
         && e.status == r.status && e.details == Some(r.details)
  {
    var j := r.ToJson();
    assert Server.HasRequiredKeys(j);
    var res := Server.Ingest(s, j, now);
    assert Server.RowFrom(res.store.entries[|s.entries|], j, s.nextId, now);
  }

  /** The store after both posts of one cycle reach the collector, at clock readings `t1` and `t2`. */
  function DeliverCycle(s: Server.Store, hostname: string, drawAboveTenth: bool, t1: DateTime, t2: DateTime): (t: Server.Store) {
    var ps := Agent.CyclePayloads(hostname, Agent.CheckFirewall(drawAboveTenth), Agent.CheckPasswordPolicy());
    Server.Ingest(Server.Ingest(s, ps[0].ToJson(), t1).store, ps[1].ToJson(), t2).store
  }

  /**
   A delivered cycle appends two rows: the firewall row, then the password
   row, both for this host. The failure count grows by one exactly when the
   firewall check failed, since the password check always passes.
   */
  lemma CycleEffect(s: Server.Store, hostname: string, drawAboveTenth: bool, t1: DateTime, t2: DateTime)
    requires Server.WellFormed(s)
    ensures var t := DeliverCycle(s, hostname, drawAboveTenth, t1, t2);
      && Server.WellFormed(t)
      && |t.entries| == |s.entries| + 2
      && t.entries[..|s.entries|] == s.entries
      && t.entries[|s.entries|].controlId == Agent.FirewallControl
      && t.entries[|s.entries| + 1].controlId == Agent.PasswordControl
      && t.entries[|s.entries|].hostname == hostname
      && t.entries[|s.entries| + 1].hostname == hostname
      && t.entries[|s.entries| + 1].status == Agent.Pass
      && Server.CountFail(t.entries) == Server.CountFail(s.entries) + (if drawAboveTenth then 0 else 1)
  {
    var ps := Agent.CyclePayloads(hostname, Agent.CheckFirewall(drawAboveTenth), Agent.CheckPasswordPolicy());
    var s1 := Server.Ingest(s, ps[0].ToJson(), t1).store;
    var s2 := Server.Ingest(s1, ps[1].ToJson(), t2).store;
    ReportAccepted(ps[0], s, t1);
    ReportAccepted(ps[1], s1, t2);
    Server.IngestCounts(s, ps[0].ToJson(), t1);
    Server.IngestCounts(s1, ps[1].ToJson(), t2);
    assert s2.entries[..|s1.entries|] == s1.entries;
    assert s2.entries[..|s.entries|] == s1.entries[..|s.entries|];
    assert s2.entries[|s.entries|] == s1.entries[|s.entries|];
  }

  /**
   Starting from an empty table, one FAIL report followed by one PASS
   report gives a score of 50, and the dashboard lists both, the later one
   first.
   */
  lemma FailThenPass(host: string, t1: DateTime, t2: DateTime)
    requires NotAfter(t1, t2) && t1 != t2
    ensures var r1 := Agent.Report(host, "A.13.1", Server.FailStatus, "down");
      var r2 := Agent.Report(host, "A.9.4", "PASS", "ok");
      var s1 := Server.Ingest(Server.Store([], 1), r1.ToJson(), t1).store;
      var s2 := Server.Ingest(s1, r2.ToJson(), t2).store;
      && Server.ComplianceScore(s2.entries) == 50.0
      && Server.RecentLogs(s2.entries, Server.RecentLimit) == [s2.entries[1], s2.entries[0]]
  {
    var r1 := Agent.Report(host, "A.13.1", Server.FailStatus, "down");
    var r2 := Agent.Report(host, "A.9.4", "PASS", "ok");
    var s0 := Server.Store([], 1);
    var s1 := Server.Ingest(s0, r1.ToJson(), t1).store;
    var s2 := Server.Ingest(s1, r2.ToJson(), t2).store;
    ReportAccepted(r1, s0, t1);
    ReportAccepted(r2, s1, t2);
    Server.IngestCounts(s0, r1.ToJson(), t1);
    Server.IngestCounts(s1, r2.ToJson(), t2);
    assert s1.entries == [s1.entries[0]];
    var e1, e2 := s2.entries[0], s2.entries[1];
    assert s2.entries == [e1, e2];
    assert Server.CountFail(s2.entries) == 1;
    HalfScore(s2.entries);
    Server.RecentOfTwo(e1, e2);
  }

  lemma HalfScore(entries: seq<AuditLog>)
    requires |entries| == 2 && Server.CountFail(entries) == 1
    ensures Server.ComplianceScore(entries) == 50.0
  {
    var score := Server.ComplianceScore(entries);
    assert score * 2.0 == 100.0 * 1.0;
  }
}
